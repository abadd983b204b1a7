/** How one runner builds its argument list (src/index.ts:91-93): the stored
    resolvers of the method are called in ascending parameter order, each
    looking its provider up at call time; holes give `undefined`. The second
    half proves what that order means for the example cursor. */
module ParameterResolver {
  import opened Basics
  import opened ExampleCursor

  /** A method's stored argument list: position i holds the provider key its
      resolver looks up (the closure `inject` stores captures only that key),
      or None for a hole of the sparse array. */
  type Slots = seq<Option<ProviderKey>>

  datatype Answer = Answer(cursor: Option<Cursor>, value: Result<Value>)

  /** Calling the resolver `inject` stored: look `p` up in the provider map as
      it is now; a missing provider gives `undefined`. The example provider
      reads the cursor of the method being run, if it has one. */
  function CallProvider(providers: map<ProviderKey, Resolver>, p: ProviderKey, key: string,
                        index: nat, cursor: Option<Cursor>): Answer
  {
    if p !in providers then Answer(cursor, Ok(Undefined))
    else match providers[p]
      case Custom(fn) => Answer(cursor, fn(key, index))
      case FromExamples =>
        if cursor.None? then Answer(cursor, Ok(Undefined))
        else var s := Step(cursor.value, index); Answer(Some(s.cursor), s.value)
  }

  /** The cursor of the method, the resolver calls so far and the arguments so
      far (or the fault that stopped resolution). */
  datatype Resolution = Resolution(cursor: Option<Cursor>, trace: seq<Event>, args: Result<seq<Value>>)

  function ResolveSlot(slots: Slots, providers: map<ProviderKey, Resolver>, key: string,
                       i: nat, acc: Resolution): Resolution
    requires i < |slots| && acc.args.Ok?
  {
    match slots[i]
    case None => acc.(args := Ok(acc.args.value + [Undefined]))
    case Some(p) =>
      var answer := CallProvider(providers, p, key, i, acc.cursor);
      Resolution(answer.cursor, acc.trace + [Consult(i)],
                 if answer.value.Ok? then Ok(acc.args.value + [answer.value.value])
                 else Err(answer.value.fault))
  }

  /** Resolving positions i, i+1, ... after `acc`; the first fault ends it.
      Resolution never drops or creates the cursor and never changes its
      example sets. */
  function ResolveFrom(slots: Slots, providers: map<ProviderKey, Resolver>, key: string,
                       i: nat, acc: Resolution): (r: Resolution)
    requires i <= |slots|
    ensures r.cursor.Some? == acc.cursor.Some?
    ensures r.cursor.Some? ==> r.cursor.value.examples == acc.cursor.value.examples
    decreases |slots| - i
  {
    if i == |slots| || acc.args.Err? then acc
    else ResolveFrom(slots, providers, key, i + 1, ResolveSlot(slots, providers, key, i, acc))
  }

  /** `test._arguments.get(key).map((r, index) => r?.({key, index, instance}))`. */
  function Resolve(slots: Slots, providers: map<ProviderKey, Resolver>, key: string,
                   cursor: Option<Cursor>): Resolution
  {
    ResolveFrom(slots, providers, key, 0, Resolution(cursor, [], Ok([])))
  }

  /** The resolver calls positions i.. would make: one per non-hole, ascending. */
  function ConsultsFrom(slots: Slots, i: nat): seq<Event>
    requires i <= |slots|
    decreases |slots| - i
  {
    if i == |slots| then []
    else (if slots[i].Some? then [Consult(i)] else []) + ConsultsFrom(slots, i + 1)
  }

  /** What position j must hold whatever the cursor does: `undefined` for a
      hole, a missing provider or an example provider without a cursor, and
      the provider's own answer for a user provider. */
  predicate SlotAgrees(slots: Slots, providers: map<ProviderKey, Resolver>, key: string,
                       hasCursor: bool, j: nat, v: Value)
    requires j < |slots|
  {
    match slots[j]
    case None => v == Undefined
    case Some(p) =>
      if p !in providers then v == Undefined
      else match providers[p]
        case Custom(fn) => fn(key, j) == Ok(v)
        case FromExamples => hasCursor || v == Undefined
  }

  lemma {:induction false} ResolveFromTrace(slots: Slots, providers: map<ProviderKey, Resolver>,
                                            key: string, i: nat, acc: Resolution)
    requires i <= |slots| && acc.args.Ok?
    ensures var r := ResolveFrom(slots, providers, key, i, acc);
            && r.trace <= acc.trace + ConsultsFrom(slots, i)
            && (r.args.Err? ==> |r.trace| > |acc.trace|)
            && (r.args.Ok? ==> r.trace == acc.trace + ConsultsFrom(slots, i))
    decreases |slots| - i
  {
    if i < |slots| {
      var next := ResolveSlot(slots, providers, key, i, acc);
      var here := if slots[i].Some? then [Consult(i)] else [];
      var rest := ConsultsFrom(slots, i + 1);
      assert next.trace == acc.trace + here;
      assert ConsultsFrom(slots, i) == here + rest;
      assert acc.trace + (here + rest) == next.trace + rest;
      if next.args.Ok? {
        ResolveFromTrace(slots, providers, key, i + 1, next);
      } else {
        assert ResolveFrom(slots, providers, key, i, acc) == next;
        assert slots[i].Some? && |next.trace| > |acc.trace|;
        assert next.trace <= next.trace + rest;
      }
    }
  }

  lemma {:induction false} ResolveFromValues(slots: Slots, providers: map<ProviderKey, Resolver>,
                                             key: string, i: nat, acc: Resolution)
    requires i <= |slots| && acc.args.Ok? && |acc.args.value| == i
    ensures var r := ResolveFrom(slots, providers, key, i, acc);
            r.args.Ok? ==>
              && |r.args.value| == |slots|
              && r.args.value[..i] == acc.args.value
              && forall j :: i <= j < |slots| ==>
                   SlotAgrees(slots, providers, key, acc.cursor.Some?, j, r.args.value[j])
    decreases |slots| - i
  {
    if i < |slots| {
      var next := ResolveSlot(slots, providers, key, i, acc);
      if next.args.Ok? {
        assert next.cursor.Some? == acc.cursor.Some?;
        assert SlotAgrees(slots, providers, key, acc.cursor.Some?, i, next.args.value[i]);
        ResolveFromValues(slots, providers, key, i + 1, next);
        var r := ResolveFrom(slots, providers, key, i + 1, next);
        if r.args.Ok? {
          assert r.args.value[..i] == r.args.value[..i + 1][..i];
          assert next.args.value[..i] == acc.args.value;
        }
      }
    }
  }

  /** Arguments are resolved once each, by ascending index: the resolver calls
      are exactly the non-hole positions in order (a prefix of them if one
      fails, the throwing call last, with no later position consulted); holes call nothing and give `undefined`;
      a user provider's answer lands at its position; the list is as long as
      the stored sparse array. */
  lemma ResolutionInOrder(slots: Slots, providers: map<ProviderKey, Resolver>, key: string,
                          cursor: Option<Cursor>)
    ensures var r := Resolve(slots, providers, key, cursor);
            && r.trace <= ConsultsFrom(slots, 0)
            && (r.args.Err? ==> r.trace != [])
            && (r.args.Err? ==>
                  exists m :: 0 <= m < |slots| && slots[m].Some?
                    && Resolve(slots[..m], providers, key, cursor).args.Ok?
                    && Resolve(slots[..m + 1], providers, key, cursor) == r
                    && r.trace[|r.trace| - 1] == Consult(m))
            && (r.args.Ok? ==>
                  && r.trace == ConsultsFrom(slots, 0)
                  && |r.args.value| == |slots|
                  && forall j :: 0 <= j < |slots| ==>
                       SlotAgrees(slots, providers, key, cursor.Some?, j, r.args.value[j]))
  {
    ResolveFromTrace(slots, providers, key, 0, Resolution(cursor, [], Ok([])));
    ResolveFromValues(slots, providers, key, 0, Resolution(cursor, [], Ok([])));
    ResolveFromFails(slots, providers, key, 0, Resolution(cursor, [], Ok([])));
  }

  /** A failed resolution from position i ends at the resolver of some
      position m that threw: everything before m resolved, and the
      positions after m play no part in the result. */
  lemma {:induction false} ResolveFromFails(slots: Slots, providers: map<ProviderKey, Resolver>,
                                            key: string, i: nat, acc: Resolution)
    requires i <= |slots| && acc.args.Ok?
    ensures var r := ResolveFrom(slots, providers, key, i, acc);
            r.args.Err? ==>
              exists m :: i <= m < |slots| && slots[m].Some?
                && ResolveFrom(slots[..m], providers, key, i, acc).args.Ok?
                && ResolveFrom(slots[..m + 1], providers, key, i, acc) == r
                && |r.trace| > 0 && r.trace[|r.trace| - 1] == Consult(m)
    decreases |slots| - i
  {
    var r := ResolveFrom(slots, providers, key, i, acc);
    if i < |slots| && r.args.Err? {
      var next := ResolveSlot(slots, providers, key, i, acc);
      assert slots[..i + 1][i] == slots[i];
      assert ResolveSlot(slots[..i + 1], providers, key, i, acc) == next;
      if next.args.Err? {
        assert r == ResolveFrom(slots, providers, key, i + 1, next);
        assert r == next;
        assert ResolveFrom(slots[..i], providers, key, i, acc) == acc;
        assert ResolveFrom(slots[..i + 1], providers, key, i, acc) == next;
      } else {
        ResolveFromFails(slots, providers, key, i + 1, next);
        var m :| i + 1 <= m < |slots| && slots[m].Some?
                 && ResolveFrom(slots[..m], providers, key, i + 1, next).args.Ok?
                 && ResolveFrom(slots[..m + 1], providers, key, i + 1, next) == r
                 && |r.trace| > 0 && r.trace[|r.trace| - 1] == Consult(m);
        assert slots[..m][i] == slots[i] && slots[..m + 1][i] == slots[i];
        assert ResolveSlot(slots[..m], providers, key, i, acc) == next;
        assert ResolveSlot(slots[..m + 1], providers, key, i, acc) == next;
      }
    }
  }

  // ---------------------------------------------------------------------------
  // The example cursor under the ascending resolution order.

  /** Position `slot` is answered by the example provider. */
  predicate Routed(providers: map<ProviderKey, Resolver>, slot: Option<ProviderKey>) {
    slot.Some? && slot.value in providers && providers[slot.value].FromExamples?
  }

  predicate HasRoutedSlot(providers: map<ProviderKey, Resolver>, slots: Slots) {
    exists j :: 0 <= j < |slots| && Routed(providers, slots[j])
  }

  /** How many positions of `slots` the example provider answers: the rank of
      the next such position among them. */
  function RoutedCount(providers: map<ProviderKey, Resolver>, slots: Slots): nat {
    if slots == [] then 0
    else RoutedCount(providers, slots[..|slots| - 1]) + (if Routed(providers, slots[|slots| - 1]) then 1 else 0)
  }

  /** No user provider of the method throws, so only the cursor can fail. */
  predicate CustomNeverThrows(slots: Slots, providers: map<ProviderKey, Resolver>, key: string) {
    forall j :: (0 <= j < |slots| && slots[j].Some? && slots[j].value in providers
                 && providers[slots[j].value].Custom?) ==> providers[slots[j].value].fn(key, j).Ok?
  }

  predicate RoutedAtMost(providers: map<ProviderKey, Resolver>, slots: Slots, n: nat, bound: int)
    requires n <= |slots|
  {
    forall j :: 0 <= j < n && Routed(providers, slots[j]) ==> j <= bound
  }

  predicate RoutedAbove(providers: map<ProviderKey, Resolver>, slots: Slots, bound: int) {
    forall j :: 0 <= j < |slots| && Routed(providers, slots[j]) ==> bound < j
  }

  lemma RoutedCountStep(providers: map<ProviderKey, Resolver>, slots: Slots, i: nat)
    requires i < |slots|
    ensures RoutedCount(providers, slots[..i + 1])
            == RoutedCount(providers, slots[..i]) + (if Routed(providers, slots[i]) then 1 else 0)
  {
    assert slots[..i + 1][..i] == slots[..i];
  }

  /** After `slots[..i]` of an invocation that reads example set `e` from
      cursor `c`: every example position so far holds the value at its rank in
      that set, and the cursor sits right behind them. */
  ghost predicate ReadingSet(slots: Slots, providers: map<ProviderKey, Resolver>, c: Cursor,
                             e: nat, i: nat, acc: Resolution)
    requires i <= |slots| && e < |c.examples|
  {
    var m := RoutedCount(providers, slots[..i]);
    && acc.args.Ok? && |acc.args.value| == i
    && (forall j :: 0 <= j < i && Routed(providers, slots[j]) ==>
          acc.args.value[j] == At(c.examples[e], RoutedCount(providers, slots[..j])))
    && (m == 0 ==> acc.cursor == Some(c) && forall j :: 0 <= j < i ==> !Routed(providers, slots[j]))
    && (m > 0 ==>
          && acc.cursor.Some?
          && acc.cursor.value.examples == c.examples
          && acc.cursor.value.currentExample == e
          && acc.cursor.value.currentExampleIndex == m
          && acc.cursor.value.lastParameterIndex < i
          && RoutedAtMost(providers, slots, i, acc.cursor.value.lastParameterIndex))
  }

  lemma ReadingSetStep(slots: Slots, providers: map<ProviderKey, Resolver>, key: string,
                       c: Cursor, restart: bool, e: nat, i: nat, acc: Resolution)
    requires CustomNeverThrows(slots, providers, key)
    requires e == (if restart then c.currentExample + 1 else c.currentExample) && e < |c.examples|
    requires restart ==> RoutedAtMost(providers, slots, |slots|, c.lastParameterIndex)
    requires !restart ==> RoutedAbove(providers, slots, c.lastParameterIndex) && c.currentExampleIndex == 0
    requires i < |slots| && ReadingSet(slots, providers, c, e, i, acc)
    ensures ReadingSet(slots, providers, c, e, i + 1, ResolveSlot(slots, providers, key, i, acc))
  {
    RoutedCountStep(providers, slots, i);
    var next := ResolveSlot(slots, providers, key, i, acc);
    var m := RoutedCount(providers, slots[..i]);
    if Routed(providers, slots[i]) {
      var cur := acc.cursor.value;
      if m == 0 {
        assert cur == c;
        assert restart <==> c.lastParameterIndex >= i;
      } else {
        assert cur.lastParameterIndex < i;
      }
      assert next.cursor == Some(Step(cur, i).cursor);
      assert next.args.value[i] == At(c.examples[e], m);
    } else {
      assert next.cursor == acc.cursor;
    }
    assert next.args.value[..i] == acc.args.value;
  }

  lemma {:induction false} ReadingSetToEnd(slots: Slots, providers: map<ProviderKey, Resolver>, key: string,
                                           c: Cursor, restart: bool, e: nat, i: nat, acc: Resolution)
    requires CustomNeverThrows(slots, providers, key)
    requires e == (if restart then c.currentExample + 1 else c.currentExample) && e < |c.examples|
    requires restart ==> RoutedAtMost(providers, slots, |slots|, c.lastParameterIndex)
    requires !restart ==> RoutedAbove(providers, slots, c.lastParameterIndex) && c.currentExampleIndex == 0
    requires i <= |slots| && ReadingSet(slots, providers, c, e, i, acc)
    ensures ReadingSet(slots, providers, c, e, |slots|, ResolveFrom(slots, providers, key, i, acc))
    decreases |slots| - i
  {
    if i < |slots| {
      ReadingSetStep(slots, providers, key, c, restart, e, i, acc);
      ReadingSetToEnd(slots, providers, key, c, restart, e, i + 1, ResolveSlot(slots, providers, key, i, acc));
    }
  }

  /** One invocation that starts at a boundary of the cursor reads one whole
      example set: the example position of rank n gets value n of set `e`, and
      the cursor is left on set `e` past every example position. */
  lemma InvocationReadsOneSet(slots: Slots, providers: map<ProviderKey, Resolver>, key: string,
                              c: Cursor, restart: bool, e: nat)
    requires CustomNeverThrows(slots, providers, key) && HasRoutedSlot(providers, slots)
    requires e == (if restart then c.currentExample + 1 else c.currentExample) && e < |c.examples|
    requires restart ==> RoutedAtMost(providers, slots, |slots|, c.lastParameterIndex)
    requires !restart ==> RoutedAbove(providers, slots, c.lastParameterIndex) && c.currentExampleIndex == 0
    ensures var r := Resolve(slots, providers, key, Some(c));
            && r.args.Ok? && |r.args.value| == |slots|
            && (forall j :: 0 <= j < |slots| && Routed(providers, slots[j]) ==>
                  r.args.value[j] == At(c.examples[e], RoutedCount(providers, slots[..j])))
            && r.cursor.Some? && r.cursor.value.examples == c.examples
            && r.cursor.value.currentExample == e
            && RoutedAtMost(providers, slots, |slots|, r.cursor.value.lastParameterIndex)
  {
    var acc := Resolution(Some(c), [], Ok([]));
    assert slots[..0] == [];
    ReadingSetToEnd(slots, providers, key, c, restart, e, 0, acc);
    var r := Resolve(slots, providers, key, Some(c));
    assert slots[..|slots|] == slots;
    var j :| 0 <= j < |slots| && Routed(providers, slots[j]);
    assert RoutedCount(providers, slots[..|slots|]) > 0;
  }

  /** After `slots[..i]` of an invocation whose first example request must
      address a missing set: resolution is still before that request, or it
      has failed with the cursor past the last set. */
  ghost predicate Failing(slots: Slots, providers: map<ProviderKey, Resolver>, c: Cursor,
                          i: nat, acc: Resolution)
    requires i <= |slots|
  {
    && (acc.args.Ok? ==>
          |acc.args.value| == i && acc.cursor == Some(c)
          && forall j :: 0 <= j < i ==> !Routed(providers, slots[j]))
    && (acc.args.Err? ==>
          acc.args.fault == NoSuchExampleSet && acc.cursor.Some?
          && acc.cursor.value.examples == c.examples
          && acc.cursor.value.currentExample >= |c.examples|)
  }

  lemma {:induction false} FailingToEnd(slots: Slots, providers: map<ProviderKey, Resolver>, key: string,
                                        c: Cursor, i: nat, acc: Resolution)
    requires CustomNeverThrows(slots, providers, key)
    requires c.currentExample >= |c.examples|
             || (c.currentExample + 1 >= |c.examples| && RoutedAtMost(providers, slots, |slots|, c.lastParameterIndex))
    requires i <= |slots| && Failing(slots, providers, c, i, acc)
    ensures Failing(slots, providers, c, |slots|, ResolveFrom(slots, providers, key, i, acc))
    decreases |slots| - i
  {
    if i < |slots| && acc.args.Ok? {
      var next := ResolveSlot(slots, providers, key, i, acc);
      if Routed(providers, slots[i]) {
        assert next.cursor == Some(Step(c, i).cursor);
      }
      assert Failing(slots, providers, c, i + 1, next);
      FailingToEnd(slots, providers, key, c, i + 1, next);
    }
  }

  /** An invocation whose first example request addresses a missing set fails
      with that fault, and leaves the cursor past the last set. */
  lemma InvocationFails(slots: Slots, providers: map<ProviderKey, Resolver>, key: string, c: Cursor)
    requires CustomNeverThrows(slots, providers, key) && HasRoutedSlot(providers, slots)
    requires c.currentExample >= |c.examples|
             || (c.currentExample + 1 >= |c.examples| && RoutedAtMost(providers, slots, |slots|, c.lastParameterIndex))
    ensures var r := Resolve(slots, providers, key, Some(c));
            && r.args == Err(NoSuchExampleSet)
            && r.cursor.Some? && r.cursor.value.examples == c.examples
            && r.cursor.value.currentExample >= |c.examples|
  {
    FailingToEnd(slots, providers, key, c, 0, Resolution(Some(c), [], Ok([])));
  }

  /** The cursor after k invocations of the method, each resolving `slots`. */
  function AfterInvocations(slots: Slots, providers: map<ProviderKey, Resolver>, key: string,
                            c: Cursor, k: nat): Cursor
  {
    if k == 0 then c
    else Resolve(slots, providers, key, Some(AfterInvocations(slots, providers, key, c, k - 1))).cursor.value
  }

  lemma {:induction false} InvocationShape(slots: Slots, providers: map<ProviderKey, Resolver>, key: string,
                                           sets: seq<seq<Value>>, k: nat)
    requires CustomNeverThrows(slots, providers, key) && HasRoutedSlot(providers, slots)
    requires 1 <= k <= |sets|
    ensures var c := AfterInvocations(slots, providers, key, Initial.(examples := sets), k);
            c.examples == sets && c.currentExample == k - 1
            && RoutedAtMost(providers, slots, |slots|, c.lastParameterIndex)
  {
    var c0 := Initial.(examples := sets);
    if k == 1 {
      InvocationReadsOneSet(slots, providers, key, c0, false, 0);
    } else {
      InvocationShape(slots, providers, key, sets, k - 1);
      var prev := AfterInvocations(slots, providers, key, c0, k - 1);
      InvocationReadsOneSet(slots, providers, key, prev, true, k - 1);
    }
  }

  lemma {:induction false} InvocationPastSets(slots: Slots, providers: map<ProviderKey, Resolver>, key: string,
                                              sets: seq<seq<Value>>, k: nat)
    requires CustomNeverThrows(slots, providers, key) && HasRoutedSlot(providers, slots)
    requires k >= |sets|
    ensures var c := AfterInvocations(slots, providers, key, Initial.(examples := sets), k);
            c.examples == sets
            && (c.currentExample >= |sets|
                || (c.currentExample + 1 >= |sets| && RoutedAtMost(providers, slots, |slots|, c.lastParameterIndex)))
  {
    var c0 := Initial.(examples := sets);
    if k == |sets| {
      if k > 0 {
        InvocationShape(slots, providers, key, sets, k);
      }
    } else {
      InvocationPastSets(slots, providers, key, sets, k - 1);
      InvocationFails(slots, providers, key, AfterInvocations(slots, providers, key, c0, k - 1));
    }
  }

  /** The cursor as a generator: starting from the state `example()` creates,
      invocation k (counting from 0) of a method whose positions are resolved
      in ascending order receives example set k, rank by rank, for every k
      below the number of sets; every later invocation fails because it
      addresses a set that does not exist. */
  lemma ExampleSetsExpandInOrder(slots: Slots, providers: map<ProviderKey, Resolver>, key: string,
                                 sets: seq<seq<Value>>, k: nat)
    requires CustomNeverThrows(slots, providers, key) && HasRoutedSlot(providers, slots)
    ensures var r := Resolve(slots, providers, key,
                             Some(AfterInvocations(slots, providers, key, Initial.(examples := sets), k)));
            && (k < |sets| ==>
                  && r.args.Ok? && |r.args.value| == |slots|
                  && forall j :: 0 <= j < |slots| && Routed(providers, slots[j]) ==>
                       r.args.value[j] == At(sets[k], RoutedCount(providers, slots[..j])))
            && (k >= |sets| ==> r.args == Err(NoSuchExampleSet))
  {
    var c0 := Initial.(examples := sets);
    var c := AfterInvocations(slots, providers, key, c0, k);
    if k < |sets| {
      if k == 0 {
        InvocationReadsOneSet(slots, providers, key, c0, false, 0);
      } else {
        InvocationShape(slots, providers, key, sets, k);
        InvocationReadsOneSet(slots, providers, key, c, true, k);
      }
    } else {
      InvocationPastSets(slots, providers, key, sets, k);
      InvocationFails(slots, providers, key, c);
    }
  }

  lemma {:induction false} RoutedCountAll(providers: map<ProviderKey, Resolver>, slots: Slots, j: nat)
    requires j <= |slots|
    requires forall i :: 0 <= i < |slots| ==> Routed(providers, slots[i])
    ensures RoutedCount(providers, slots[..j]) == j
  {
    if j > 0 {
      RoutedCountAll(providers, slots, j - 1);
      RoutedCountStep(providers, slots, j - 1);
    }
  }

  /** When every parameter is injected from examples, invocation k receives
      exactly example set k, cut or padded with `undefined` to the length of
      the argument list. */
  lemma WholeSetPerInvocation(slots: Slots, providers: map<ProviderKey, Resolver>, key: string,
                              sets: seq<seq<Value>>, k: nat)
    requires |slots| > 0 && forall i :: 0 <= i < |slots| ==> Routed(providers, slots[i])
    requires k < |sets|
    ensures Resolve(slots, providers, key, Some(AfterInvocations(slots, providers, key, Initial.(examples := sets), k))).args
            == Ok(seq(|slots|, j requires 0 <= j < |slots| => At(sets[k], j)))
  {
    assert Routed(providers, slots[0]);
    ExampleSetsExpandInOrder(slots, providers, key, sets, k);
    var r := Resolve(slots, providers, key, Some(AfterInvocations(slots, providers, key, Initial.(examples := sets), k)));
    forall j | 0 <= j < |slots|
      ensures r.args.value[j] == At(sets[k], j)
    {
      RoutedCountAll(providers, slots, j);
    }
    assert r.args.value == seq(|slots|, j requires 0 <= j < |slots| => At(sets[k], j));
  }
}
