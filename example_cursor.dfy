/** The cursor that `exampleProvider` keeps per test method: a list of example
    sets and a position in it, advanced one parameter request at a time. A new
    invocation of the method is detected only by the requested parameter index
    failing to increase. */
module ExampleCursor {
  import opened Basics

  /** The record `{lastParameterIndex, currentExampleIndex, currentExample, examples}`. */
  datatype Cursor = Cursor(
    examples: seq<seq<Value>>,
    currentExample: nat,
    currentExampleIndex: nat,
    lastParameterIndex: int)

  /** What `example()` stores the first time it sees a method. */
  const Initial := Cursor([], 0, 0, -1)

  datatype Stepped = Stepped(cursor: Cursor, value: Result<Value>)

  /** Reading position `i` of an existing example set: past its end the
      array yields `undefined`. */
  function At(exampleSet: seq<Value>, i: nat): Value {
    if i < |exampleSet| then exampleSet[i] else Undefined
  }

  /** One request of the example provider for parameter `index`. A request
      whose index does not exceed the last one moves to the next example set
      and back to its first value; the index is recorded; then the value is
      read and the position advances. Indexing a missing example set throws,
      after the first three updates and before the position advances. */
  function Step(c: Cursor, index: nat): Stepped {
    var restart := c.lastParameterIndex >= index;
    var current := if restart then c.currentExample + 1 else c.currentExample;
    var position := if restart then 0 else c.currentExampleIndex;
    if current < |c.examples| then
      Stepped(Cursor(c.examples, current, position + 1, index), Ok(At(c.examples[current], position)))
    else
      Stepped(Cursor(c.examples, current, position, index), Err(NoSuchExampleSet))
  }

  /** The sets `[[1,2],[3,4]]` asked for parameters 0,1,0,1 give 1,2,3,4; a
      further request for parameter 0 addresses a third set, which fails. */
  lemma WorkedSchedule()
    ensures var c0 := Initial.(examples := [[Val("1"), Val("2")], [Val("3"), Val("4")]]);
            var s1 := Step(c0, 0);
            var s2 := Step(s1.cursor, 1);
            var s3 := Step(s2.cursor, 0);
            var s4 := Step(s3.cursor, 1);
            var s5 := Step(s4.cursor, 0);
            && s1.value == Ok(Val("1")) && s2.value == Ok(Val("2"))
            && s3.value == Ok(Val("3")) && s4.value == Ok(Val("4"))
            && s5.value == Err(NoSuchExampleSet)
  {
  }

  /** The cursor relies on ascending requests: asking for parameter 1 before
      parameter 0 hands parameter 0 a value of the second example set. */
  lemma OutOfOrderRequestsMixSets()
    ensures var c0 := Initial.(examples := [[Val("1"), Val("2")], [Val("3"), Val("4")]]);
            var s1 := Step(c0, 1);
            var s2 := Step(s1.cursor, 0);
            s1.value == Ok(Val("1")) && s2.value == Ok(Val("3"))
  {
  }

  /** Within an existing set, reading past its last value yields `undefined`
      rather than failing; only a missing set fails. */
  lemma ReadingPastASetIsUndefined(c: Cursor, index: nat)
    requires c.lastParameterIndex < index
    requires c.currentExample < |c.examples|
    requires c.currentExampleIndex >= |c.examples[c.currentExample]|
    ensures Step(c, index).value == Ok(Undefined)
    ensures Step(c, index).cursor.currentExample == c.currentExample
  {
  }
}
