/** Signature introspection: the shape checks on signatures and dependency lists and the
    gate that exposes a class's `Inject` annotation only when it is well formed. */
module Signatures {
  import opened TypeLists
  import opened Diagnostics

  /** static_and<!is_list<Ts>::value...> */
  function NoneIsList(ts: seq<Ty>): (b: bool)
    ensures b <==> forall i :: 0 <= i < |ts| ==> !IsList(ts[i])
  {
    ts == [] || (!IsList(ts[0]) && NoneIsList(ts[1..]))
  }

  /** IsValidSignature<S>: S is a function type T(Args...) and neither T nor any Args is a
      List; every other type is not a valid signature. */
  function IsValidSignature(s: Ty): (b: bool)
    ensures b <==> s.Fn? && !IsList(s.result) && forall i :: 0 <= i < |s.params| ==> !IsList(s.params[i])
  {
    match s
    case Fn(t, args) => !IsList(t) && NoneIsList(args)
    case _ => false
  }

  /** static_and<IsValidSignature<Ds>::value...> */
  function AllValidSignatures(ds: seq<Ty>): (b: bool)
    ensures b <==> forall i :: 0 <= i < |ds| ==> IsValidSignature(ds[i])
  {
    ds == [] || (IsValidSignature(ds[0]) && AllValidSignatures(ds[1..]))
  }

  /** IsValidDeps<Deps>: Deps is a List whose every element is a valid signature. */
  function IsValidDeps(deps: Ty): (b: bool)
    ensures b <==> deps.ListTy? && forall i :: 0 <= i < |deps.elems| ==> IsValidSignature(deps.elems[i])
  {
    match deps
    case ListTy(ds) => AllValidSignatures(ds)
    case _ => false
  }

  /** IsConstructorSignature<T, S>: S has the form T(Args...) for some Args. */
  function IsConstructorSignature(t: Ty, s: Ty): (b: bool)
    ensures b <==> exists args :: s == Fn(t, args)
  {
    assert s.Fn? ==> s == Fn(s.result, s.params);
    s.Fn? && s.result == t
  }

  /** What GetInjectAnnotation<C> exposes: `Signature` and `Args`. */
  datatype InjectAnnotation = InjectAnnotation(signature: Ty, args: seq<Ty>)

  /** GetInjectAnnotation<C>::ok, for C whose nested `Inject` typedef is `inject`.
      Constructibility (`is_constructible_with_list`) and the stripping of assisted
      markers (`UnlabelAssisted`) are C++ traits outside the model: they are parameters. */
  predicate InjectAnnotationOk(c: Ty, inject: Ty,
                               constructible: (Ty, seq<Ty>) -> bool, unlabel: seq<Ty> -> seq<Ty>)
  {
    && IsValidSignature(inject)
    && inject.result == c
    && constructible(c, unlabel(inject.params))
  }

  /** GetInjectAnnotation<C>: the annotation C::Inject with its argument list, withheld
      entirely unless `ok`; otherwise the first of the three static assertions that fails. */
  function GetInjectAnnotation(c: Ty, inject: Ty,
                               constructible: (Ty, seq<Ty>) -> bool, unlabel: seq<Ty> -> seq<Ty>)
    : (r: Result<InjectAnnotation>)
    ensures r.Ok? <==> InjectAnnotationOk(c, inject, constructible, unlabel)
    ensures r.Ok? ==> r.value == InjectAnnotation(inject, inject.params)
    ensures !IsValidSignature(inject) ==> r == Err(InvalidInjectSignature)
    ensures IsValidSignature(inject) && inject.result != c ==> r == Err(InjectResultMismatch)
    ensures IsValidSignature(inject) && inject.result == c && !constructible(c, unlabel(inject.params)) ==>
      r == Err(NotConstructible)
  {
    if !IsValidSignature(inject) then Err(InvalidInjectSignature)
    else if inject.result != c then Err(InjectResultMismatch)
    else if !constructible(c, unlabel(inject.params)) then Err(NotConstructible)
    else Ok(InjectAnnotation(inject, inject.params))
  }

  /** An exposed annotation is exactly a constructor signature of C, valid in shape, whose
      unlabelled arguments C is constructible from; whatever fails, nothing is exposed. */
  lemma InjectAnnotationExposedIff(c: Ty, inject: Ty,
                                   constructible: (Ty, seq<Ty>) -> bool, unlabel: seq<Ty> -> seq<Ty>)
    ensures GetInjectAnnotation(c, inject, constructible, unlabel).Ok? <==>
      && IsValidSignature(inject)
      && IsConstructorSignature(c, inject)
      && constructible(c, unlabel(inject.params))
    ensures GetInjectAnnotation(c, inject, constructible, unlabel).Ok? ==>
      var a := GetInjectAnnotation(c, inject, constructible, unlabel).value;
      && a.signature == Fn(c, a.args)
      && !IsList(c)
      && forall i :: 0 <= i < |a.args| ==> !IsList(a.args[i])
  {
  }

  /** The case the source comment warns about: a class C whose Inject typedef is int(C)
      is rejected with the result-type diagnostic, whatever constructibility says. */
  lemma InheritedAnnotationRejected(constructible: (Ty, seq<Ty>) -> bool, unlabel: seq<Ty> -> seq<Ty>)
    ensures GetInjectAnnotation(Plain("C"), Fn(Plain("int"), [Plain("C")]), constructible, unlabel)
         == Err(InjectResultMismatch)
  {
  }
}
