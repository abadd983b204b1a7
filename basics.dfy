/** Values, keys, resolvers and trace events shared by every part of the model
    of the decorator registry in src/index.ts. */
module Basics {

  datatype Option<+T> = None | Some(value: T)

  /** Why a resolution, a hook or a test method stopped a runner. */
  datatype Fault =
    | NoSuchExampleSet  // the cursor indexed an example set that was never registered (a TypeError)
    | Thrown            // a provider, a hook or the test method threw or rejected

  datatype Result<+T> = Ok(value: T) | Err(fault: Fault)

  /** A JavaScript value as far as the core looks at it: `undefined`, or a
      value known by the text it renders to. */
  datatype Value = Undefined | Val(text: string)

  /** String conversion of one array element inside `Array.prototype.join`:
      `undefined` becomes the empty string. */
  function Render(v: Value): string {
    match v
    case Undefined => ""
    case Val(t) => t
  }

  /** `values.join(",")`, which is what a template literal does with an array. */
  function Join(values: seq<Value>): string {
    if values == [] then ""
    else if |values| == 1 then Render(values[0])
    else Join(values[..|values| - 1]) + "," + Render(values[|values| - 1])
  }

  /** A key of the provider map: the `Example` class marker, a string literal,
      or some other class used as a type marker. */
  datatype ProviderKey = ExampleClass | Str(s: string) | TypeRef(name: string)

  /** The keys `if (!provider)` treats as absent (besides a missing argument). */
  predicate Falsy(k: ProviderKey) {
    k == Str("")
  }

  /** What a provider does when it is asked for an argument: either the
      example cursor, or a user function of the method name and the
      parameter index that returns a value or throws. */
  datatype Resolver =
    | FromExamples
    | Custom(fn: (string, nat) -> Result<Value>)

  datatype Phase = Before | After

  /** One observable step of a runner: a stored argument resolver was called
      for a parameter position, a hook method was called, or the test method
      was called with its arguments. */
  datatype Event =
    | Consult(index: nat)
    | HookCall(phase: Phase, hook: string)
    | TestCall(key: string, args: seq<Value>)
}
