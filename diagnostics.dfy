/** The compile-time failures of the dependency algebra.  In the library each is a
    `static_assert` or a `FruitDelegateCheck` that stops translation; here each is a
    value naming the failed check and the types involved. */
module Diagnostics {
  import opened TypeLists

  datatype Diagnostic =
    | InvalidInjectSignature                   // shape: the annotation is not a valid signature
    | InjectResultMismatch                     // annotation: its result type is not the annotated class
    | NotConstructible                         // annotation: the class cannot be built from its arguments
    | SelfLoop(loopHead: Ty)                   // graph: a dependency requires its own head
    | NoMatchingDep(missing: Ty)               // graph: no entry provides the required head
    | ArgsNotSuperset(depHead: Ty, extra: seq<Ty>)  // interface: the reference entry requires more
    | AdditionalProvidedTypes(provided: seq<Ty>)    // interface: extra provided types
    | TypesNoLongerRequired(required: seq<Ty>)      // interface: requirements that were not dropped

  /** The outcome of a check that produces no type: it passes or stops with a diagnostic. */
  datatype Outcome = Pass | Fail(error: Diagnostic)

  /** The outcome of a computation that produces a type unless a check inside it fails. */
  datatype Result<T> = Ok(value: T) | Err(error: Diagnostic)
}
