# Fruit's type-level dependency algebra, in Dafny

This project models the compile-time core of the Fruit dependency-injection library,
`include/fruit/impl/module.utils.h`. In C++ it is a set of template metaprograms: the
data are types and the computation is type substitution. Here each type is a value of
the datatype `Ty` (a plain class, a `List<...>`, a pointer, an `Injector<...>` or a
function type `T(Args...)`). A dependency "obtaining `head` requires `args`" is a
`Dep`, and a dependency list is a `seq<Dep>`. Each `static_assert` or
`FruitDelegateCheck` becomes a `Diagnostic` returned in an `Outcome` or a `Result`.

Modules:

- `TypeLists` (type_lists.dfy): the type descriptor and the list/set primitives the
  header uses. The header that defines these primitives is not part of this model.
  Each is given its evident meaning, and its contract states that meaning:
  - `remove_from_list` drops every occurrence;
  - `list_to_set` keeps one occurrence of each element;
  - `replace_with_set<R, Rs, L>` removes R and then adds the elements of Rs not yet
    present, but only when R is in L;
  - `set_difference` filters;
  - `add_to_list` prepends.
- `Diagnostics` (diagnostics.dfy): the failure categories.
- `Signatures` (signatures.dfy): shape validity, `IsConstructorSignature`, and the `ok`
  gate of `GetInjectAnnotation`.
- `Deps` (deps.dfy): requirement removal, construction, substitution and
  canonicalization of one dependency.
- `Merge` (merge.dfy): `AddDep` and `AddDeps`.
- `Entailment` (entailment.dfy): `CheckDepEntailed`, `CheckDepsSubset` and
  `CheckModuleEntails`.
- `InjectorParams` (injector_params.dfy): `ExpandInjectorsInParams`.

Points where the code's behaviour is easy to misread:

- `AddDep` checks the dependency it is given for a self-loop, not the canonicalized one
  (module.utils.h:154). The source comment at :155-157 claims that one replacement
  step per entry gives a closed list. That claim holds only when the canonicalized
  entry has no self-loop either. `Merge.AddDepClosed` proves closure under that precondition.
  `Merge.AddDepMissesTwoStepCycle` shows that `AddDep(A(B), [B(A)])` is accepted and
  returns the non-closed list `[A(A), B(A)]`.
- Entailment is monotone in the requirements of the checked dependency: requiring more
  keeps it entailed (`Entailment.DepEntailedMonotone`). Requiring less can break
  entailment: `A()` is not entailed by `[A(B)]`, while `A(B)` is
  (`Entailment.RequiringLessBreaksEntailment`).
- `AddDeps` of a closed list into itself duplicates every entry, so the merge is not
  idempotent. Canonicalization is: `CanonicalizeDepWithDeps` against a closed list
  (`Deps.CanonicalizeDepWithDepsIdempotent`).
- `ReplaceRequirementsInDep` at :120 leaves its result wrapped in a List, unlike
  `CanonicalizeDepWithDep` at :127 (see Findings).

## Model

| member | source | states |
|---|---|---|
| `TypeLists.RemoveFromList` | include/fruit/impl/module.utils.h:89 | removes exactly the occurrences of C and keeps everything else; leaves L unchanged when C is absent; keeps distinctness |
| `TypeLists.ListToSet` | include/fruit/impl/module.utils.h:113 | same elements as L, each exactly once; a list that is already distinct is returned unchanged |
| `TypeLists.SetUnion` | include/fruit/impl/module.utils.h:118-120 | the union as a set: A is kept as a prefix; the result is distinct when A is; it equals A when B adds nothing |
| `TypeLists.ReplaceWithSet` | include/fruit/impl/module.utils.h:118-120 | when R is in L: L without R, united with Rs; otherwise L unchanged; introduces no duplicates |
| `TypeLists.SetDifference` | include/fruit/impl/module.utils.h:198 | exactly the elements of A that are not in B; empty iff A ⊆ B |
| `TypeLists.AddPointerToList` | include/fruit/impl/module.utils.h:113 | each element T replaced by T*, positions kept |
| `Signatures.IsValidSignature` | include/fruit/impl/module.utils.h:29-33 | true iff the type is a function type and neither its result nor any argument is a List |
| `Signatures.IsValidDeps` | include/fruit/impl/module.utils.h:35-39 | true iff the type is a List whose every element is a valid signature |
| `Signatures.IsConstructorSignature` | include/fruit/impl/module.utils.h:56-62 | true iff the signature has the form C(Args...) for some Args |
| `Signatures.GetInjectAnnotation` | include/fruit/impl/module.utils.h:64-79 | the annotation and its args are exposed iff `ok` holds; otherwise it fails with the shape diagnostic first, then the result-type diagnostic, then non-constructibility |
| `Signatures.InjectAnnotationExposedIff` | include/fruit/impl/module.utils.h:71-78 | exposed iff valid, a constructor signature of C, and C is constructible from the unlabelled args; an exposed signature is C(args) with no List in it |
| `Signatures.InheritedAnnotationRejected` | include/fruit/impl/module.utils.h:69-76 | an `Inject` typedef int(C) in class C is rejected with the result-type diagnostic |
| `Deps.RemoveRequirementFromDep` | include/fruit/impl/module.utils.h:88-89 | the head is unchanged; the args lose exactly C; the dep is unchanged when C is not required |
| `Deps.RemoveRequirementFromDeps` | include/fruit/impl/module.utils.h:91-110 | the heads and their positions are unchanged; every entry loses exactly C from its args |
| `Deps.ConstructDep` | include/fruit/impl/module.utils.h:112-113 | head P*; T* is required iff T is in Rs; only pointers, each once; always a valid signature |
| `Deps.ConstructDeps` | include/fruit/impl/module.utils.h:115-116 | heads are the Ps as pointers, in order; every entry requires exactly the Rs as pointers; heads are distinct when the Ps are |
| `Deps.ReplaceRequirementsInDep` | include/fruit/impl/module.utils.h:118-120 | as written: the head is unchanged and the one parameter is the List that replace_with_set returns (R replaced by Rs as a set when R is required, the old args otherwise); the result is never a valid signature |
| `Deps.ReplaceRequirementsInDepWrapsList` | include/fruit/impl/module.utils.h:118-120 | A(B) with B replaced by C gives A(List<C>), where the described substitution gives A(C); with nothing to replace, A(B) becomes A(List<B>) |
| `Deps.ReplaceRequirementsInDepUnpacked` | include/fruit/impl/module.utils.h:118-120 | the substitution the comment at :118 describes: the head is unchanged; a required R is replaced by Rs as a set; otherwise the dep is unchanged; it is CanonicalizeDepWithDep with the dependency R(Rs...) |
| `Deps.CanonicalizeDepWithDep` | include/fruit/impl/module.utils.h:126-127 | D's head never changes; if D1's head is required it is removed and D1's args are added without duplicates; otherwise D is unchanged; distinct args stay distinct |
| `Deps.ValidDepListIff` | include/fruit/impl/module.utils.h:35-39 | IsValidDeps of the List type of a dependency list holds iff every entry is a valid signature |
| `Deps.CanonicalizeDepWithDepsPreservesValidity` | include/fruit/impl/module.utils.h:140-149 | canonicalizing a valid dependency against valid dependencies gives a valid dependency |
| `Deps.CanonicalizePreservesValidity` | include/fruit/impl/module.utils.h:126-127 | canonicalizing a valid signature with a valid signature gives a valid signature |
| `Deps.CanonicalizeDepsWithDep` | include/fruit/impl/module.utils.h:129-135 | a map: heads and positions kept, each entry canonicalized with Dep; no entry requires Dep's head when Dep has no self-loop |
| `Deps.CanonicalizeDepWithDeps` | include/fruit/impl/module.utils.h:137-149 | the head is kept; every resulting arg comes from Dep or from some entry of Deps (the exact substitution meaning is `Deps.CanonicalizeDepWithDepsMeaning`) |
| `Deps.CanonicalizeDepWithDepsMeaning` | include/fruit/impl/module.utils.h:137-149 | against a closed list with distinct heads, a requirement is in the result exactly when it is a requirement of Dep that no entry provides, or a requirement of an entry whose head Dep requires |
| `Deps.CanonicalizeDepWithDepsResolvesHeads` | include/fruit/impl/module.utils.h:140-149 | against a closed list, the result requires no head of the list |
| `Deps.CanonicalizeDepWithDepsNoop` | include/fruit/impl/module.utils.h:140-149 | a Dep that requires no head of Deps is returned unchanged (the empty list is a special case) |
| `Deps.CanonicalizeDepWithDepsIdempotent` | include/fruit/impl/module.utils.h:140-149 | canonicalizing twice against a closed list is the same as once |
| `Merge.AddDep` | include/fruit/impl/module.utils.h:151-162 | fails with SelfLoop(head) exactly when the input Dep, before canonicalization, has a self-loop; otherwise returns the canonicalized Dep in front and every entry of Deps canonicalized with it, with the heads in order |
| `Merge.AddDepResolvesNewHead` | include/fruit/impl/module.utils.h:151-158 | when the canonicalized entry has no self-loop, no entry of the result requires the new head |
| `Merge.AddDepPreservesValidity` | include/fruit/impl/module.utils.h:151-162 | a successful merge of a valid dependency into valid dependencies gives only valid entries |
| `Merge.AddDepClosed` | include/fruit/impl/module.utils.h:155-158 | merging into a closed list gives a closed list when neither the input nor the canonicalized Dep has a self-loop |
| `Merge.AddDepMissesTwoStepCycle` | include/fruit/impl/module.utils.h:154-157 | A(B) merged into [B(A)] is accepted and gives [A(A), B(A)], which is not closed |
| `Merge.AddDepSubstitutesRequirement` | include/fruit/impl/module.utils.h:151-162 | A(B) merged into [B(C)] gives [A(C), B(C)] |
| `Merge.AddDeps` | include/fruit/impl/module.utils.h:164-179 | on success, the heads are those of Deps followed by those of OtherDeps |
| `Merge.AddDepsFailsIff` | include/fruit/impl/module.utils.h:172-176 | fails iff some entry of Deps has a self-loop, and reports the last such entry, which is merged first |
| `Merge.AddDepsPreservesValidity` | include/fruit/impl/module.utils.h:164-179 | a successful batch merge of valid dependencies gives only valid entries |
| `Merge.AddDepsClosed` | include/fruit/impl/module.utils.h:164-179 | folding entries into a closed list gives a closed list when no merge step meets a self-loop |
| `Entailment.CheckDepEntailed` | include/fruit/impl/module.utils.h:181-199 | fails with NoMatchingDep exactly when no entry of Deps has D's head |
| `Entailment.CheckDepEntailedFirstMatch` | include/fruit/impl/module.utils.h:191-199 | when an entry has D's head, the first such entry decides: the check passes iff that entry requires only types D requires, and otherwise reports the extra types |
| `Entailment.CheckDepsSubset` | include/fruit/impl/module.utils.h:201-210 | passes iff every entry of the subset is entailed (so the empty subset passes); otherwise reports the first failure |
| `Entailment.CheckModuleEntails` | include/fruit/impl/module.utils.h:212-220 | passes iff E.Ps ⊆ M.Ps, M.Rs ⊆ E.Rs and every dep of E is entailed by M's deps; each violation gives its own diagnostic |
| `Entailment.DepEntailedMonotone` | include/fruit/impl/module.utils.h:196-199 | an entailed dep stays entailed when it requires more |
| `Entailment.RequiringLessBreaksEntailment` | include/fruit/impl/module.utils.h:196-199 | A(B) is entailed by [A(B)] but A() is not: it fails with ArgsNotSuperset(A, [B]) |
| `Entailment.DepEntailedBySelf` | include/fruit/impl/module.utils.h:196-199 | a list with distinct heads entails each of its entries |
| `Entailment.ModuleEntailsItself` | include/fruit/impl/module.utils.h:212-220 | a module whose deps have distinct heads entails itself |
| `Entailment.SelfEntailmentNeedsDistinctHeads` | include/fruit/impl/module.utils.h:191-199 | with deps [A(B), A()] a module does not entail itself |
| `InjectorParams.ExpandInjectorsInParams` | include/fruit/impl/module.utils.h:222-245 | the output length is the sum of the expanded lengths of the parameters |
| `InjectorParams.ExpandMembership` | include/fruit/impl/module.utils.h:230-242 | a type is in the output iff it is in the expansion of some parameter |
| `InjectorParams.ExpandAppend` | include/fruit/impl/module.utils.h:230-242 | expansion distributes over concatenation |
| `InjectorParams.ExpandInPlace` | include/fruit/impl/module.utils.h:230-242 | each parameter is replaced in place by its expansion, and the relative order of everything else is kept |
| `InjectorParams.ExpandWithoutInjectors` | include/fruit/impl/module.utils.h:230-235 | a list with no Injector parameter is returned unchanged |
| `InjectorParams.ExpandScenario` | include/fruit/impl/module.utils.h:238-242 | [R, Injector<P, Q>, S] expands to [R, P, Q, S] |

## Findings

| source | as written | input that shows it | evidently intended | confidence | as-written member | corrected member |
|---|---|---|---|---|---|---|
| include/fruit/impl/module.utils.h:118-120 | `SignatureType<Dep>(replace_with_set<…>)` builds a signature with one parameter, the List returned by replace_with_set, because ConstructSignature is not applied | Dep A(B), R = B, Rs = [C] gives A(List<C>). With R absent, A(B) gives A(List<B>) | the comment at :118 says R is replaced by the types in Rs, giving A(C), as CanonicalizeDepWithDep at :127 does through ConstructSignature. No other line of the header uses this alias | not executed; high that the alias differs from :127, low that it matters, since nothing uses it | `Deps.ReplaceRequirementsInDep`, `Deps.ReplaceRequirementsInDepWrapsList` | `Deps.ReplaceRequirementsInDepUnpacked` |

## Left out

- The injector front end in include/fruit/impl/injector.templates.h: the shared-pointer and no-op-deleter ownership in the constructors, and `get<T>`/`operator T`. Both delegate to the runtime `UnsafeModule`, which is not part of this model. Their static gate is one membership test through `GetClassForType`, which is also not part of this model.
- tests/explicit_injector_injection.cpp: a compile-error test with no logic of its own.
- `HasInjectAnnotation` (module.utils.h:41-54) is SFINAE detection. The model takes the `Inject` typedef as an input instead.
- `is_constructible_with_list` and `UnlabelAssisted` are C++ traits. They are parameters of `GetInjectAnnotation`.
- `DepRequirementsImpl`/`DepRequirements` (:81-86) is an empty stub with no definition.
- Three checks can never fire here, because every list is a `seq` and every entry is a `Dep`: the `static_assert(false)` for a non-List argument of `RemoveRequirementFromDepsHelper` (:99-102), the "should never instantiate" primary template of `CheckDepEntailed` (:181-184), and the `is_empty_list` assertion of the primary `CheckDepsSubset` template (:202-205), which would fire only for a subset that is not a List.
- Diagnostic texts are left out; only the category and the types involved are kept.
- `GetInjectAnnotation`, `CheckModuleEntails`, `CheckDepsSubset`, `AddDeps`: the compiler reports every failing check, but the model reports one. `CheckDepsSubset` instantiates the check of each entry through its chain of base classes. `AddDeps` instantiates one self-loop check per merge step and still produces its type. For each of these the model reports a single diagnostic: the first failing one in source order, and for `AddDeps` the one of the first merge step that fails.
- Detection of cycles longer than one step: the code does not have it.
- `HasSelfLoop` has no row of its own. It is the one-line membership test `head in args`, and the contracts of `Merge.AddDep` and `Merge.AddDepsFailsIff` state its role.
