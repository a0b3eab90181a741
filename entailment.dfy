/** Entailment: whether one dependency list, and one module interface, is a safe
    specialization of another. */
module Entailment {
  import opened TypeLists
  import opened Diagnostics
  import opened Deps

  /** The static interface of a module: provided types, required types and its dependencies. */
  datatype ModuleInterface = ModuleInterface(ps: seq<Ty>, rs: seq<Ty>, deps: seq<Dep>)

  /** CheckDepEntailed<D, Deps>: the first entry of Deps with D's head must require no type
      that D does not require; with no such entry, the check fails. */
  function CheckDepEntailed(d: Dep, ds: seq<Dep>): (r: Outcome)
    ensures (forall i :: 0 <= i < |ds| ==> ds[i].head != d.head) <==> r == Fail(NoMatchingDep(d.head))
  {
    if ds == [] then Fail(NoMatchingDep(d.head))
    else if ds[0].head == d.head then
      var extra := SetDifference(ds[0].args, d.args);
      if extra == [] then Pass else Fail(ArgsNotSuperset(d.head, extra))
    else
      assert forall i :: 0 < i < |ds| ==> ds[i] == ds[1..][i - 1];
      CheckDepEntailed(d, ds[1..])
  }

  /** When Deps has an entry with D's head, the first such entry decides: the check passes
      iff that entry requires only types D requires, and otherwise names the extra types. */
  lemma {:induction false} CheckDepEntailedFirstMatch(d: Dep, ds: seq<Dep>, i: nat)
    requires i < |ds| && ds[i].head == d.head
    requires forall j :: 0 <= j < i ==> ds[j].head != d.head
    ensures CheckDepEntailed(d, ds).Pass? <==> forall x :: x in ds[i].args ==> x in d.args
    ensures CheckDepEntailed(d, ds).Fail? ==>
      CheckDepEntailed(d, ds).error == ArgsNotSuperset(d.head, SetDifference(ds[i].args, d.args))
  {
    if i > 0 {
      assert forall j :: 0 <= j < i - 1 ==> ds[1..][j] == ds[j + 1];
      CheckDepEntailedFirstMatch(d, ds[1..], i - 1);
    }
  }

  /** CheckDepsSubset<DepsSubset, Deps>: every entry of DepsSubset is entailed by Deps; a
      failure is that of the first entry not entailed. */
  function CheckDepsSubset(subset: seq<Dep>, ds: seq<Dep>): (r: Outcome)
    ensures r.Pass? <==> forall i :: 0 <= i < |subset| ==> CheckDepEntailed(subset[i], ds).Pass?
    ensures r.Fail? ==> exists i :: 0 <= i < |subset| && r == CheckDepEntailed(subset[i], ds)
                                    && forall j :: 0 <= j < i ==> CheckDepEntailed(subset[j], ds).Pass?
  {
    if subset == [] then Pass
    else
      var first := CheckDepEntailed(subset[0], ds);
      if first.Fail? then first
      else
        var rest := CheckDepsSubset(subset[1..], ds);
        assert forall i :: 0 < i < |subset| ==> subset[i] == subset[1..][i - 1];
        assert rest.Fail? ==> exists i :: 0 <= i < |subset| && rest == CheckDepEntailed(subset[i], ds)
                                          && forall j :: 0 <= j < i ==> CheckDepEntailed(subset[j], ds).Pass? by {
          if rest.Fail? {
            var k :| 0 <= k < |subset| - 1 && rest == CheckDepEntailed(subset[1..][k], ds)
                     && forall j :: 0 <= j < k ==> CheckDepEntailed(subset[1..][j], ds).Pass?;
            assert rest == CheckDepEntailed(subset[k + 1], ds);
          }
        }
        rest
  }

  /** CheckModuleEntails<M, EntailedM>: EntailedM provides nothing M does not, M requires
      nothing EntailedM does not, and EntailedM's deps are entailed by M's.  The diagnostics
      come in that order. */
  function CheckModuleEntails(m: ModuleInterface, e: ModuleInterface): (r: Outcome)
    ensures r.Pass? <==>
      && (forall t :: t in e.ps ==> t in m.ps)
      && (forall t :: t in m.rs ==> t in e.rs)
      && (forall i :: 0 <= i < |e.deps| ==> CheckDepEntailed(e.deps[i], m.deps).Pass?)
    ensures (exists t :: t in e.ps && t !in m.ps) ==> r == Fail(AdditionalProvidedTypes(SetDifference(e.ps, m.ps)))
    ensures (forall t :: t in e.ps ==> t in m.ps) && (exists t :: t in m.rs && t !in e.rs) ==>
      r == Fail(TypesNoLongerRequired(SetDifference(m.rs, e.rs)))
    ensures (forall t :: t in e.ps ==> t in m.ps) && (forall t :: t in m.rs ==> t in e.rs) ==>
      r == CheckDepsSubset(e.deps, m.deps)
  {
    var additionalProvided := SetDifference(e.ps, m.ps);
    var noLongerRequired := SetDifference(m.rs, e.rs);
    if additionalProvided != [] then Fail(AdditionalProvidedTypes(additionalProvided))
    else if noLongerRequired != [] then Fail(TypesNoLongerRequired(noLongerRequired))
    else CheckDepsSubset(e.deps, m.deps)
  }

  /** A dependency requiring more keeps being entailed: entailment is monotone in D's
      requirements. */
  lemma {:induction false} DepEntailedMonotone(d: Dep, d2: Dep, ds: seq<Dep>)
    requires d2.head == d.head
    requires forall x :: x in d.args ==> x in d2.args
    requires CheckDepEntailed(d, ds).Pass?
    ensures CheckDepEntailed(d2, ds).Pass?
  {
    if ds[0].head != d.head {
      DepEntailedMonotone(d, d2, ds[1..]);
    }
  }

  /** The converse of monotonicity fails: A(B) is entailed by [A(B)], but A(), which
      requires less, is not. */
  lemma RequiringLessBreaksEntailment()
    ensures
      var a, b := Plain("A"), Plain("B");
      CheckDepEntailed(Dep(a, [b]), [Dep(a, [b])]) == Pass &&
      CheckDepEntailed(Dep(a, []), [Dep(a, [b])]) == Fail(ArgsNotSuperset(a, [b]))
  {
    var a, b := Plain("A"), Plain("B");
    assert SetDifference([b], [b]) == [];
    assert SetDifference([b], []) == [b];
  }

  /** A list with distinct heads entails each of its own entries. */
  lemma {:induction false} DepEntailedBySelf(ds: seq<Dep>, i: nat)
    requires NoDup(Heads(ds))
    requires i < |ds|
    ensures CheckDepEntailed(ds[i], ds) == Pass
  {
    var d := ds[i];
    if i == 0 {
      assert SetDifference(d.args, d.args) == [];
    } else {
      assert Heads(ds)[0] != Heads(ds)[i];
      assert Heads(ds[1..]) == Heads(ds)[1..];
      NoDupTail(Heads(ds));
      assert ds[1..][i - 1] == d;
      DepEntailedBySelf(ds[1..], i - 1);
    }
  }

  /** A module whose deps have distinct heads entails itself. */
  lemma {:induction false} ModuleEntailsItself(m: ModuleInterface)
    requires NoDup(Heads(m.deps))
    ensures CheckModuleEntails(m, m) == Pass
  {
    forall i | 0 <= i < |m.deps| ensures CheckDepEntailed(m.deps[i], m.deps).Pass? {
      DepEntailedBySelf(m.deps, i);
    }
  }

  /** Distinct heads are needed: with deps [A(B), A()] the entry A() is checked against the
      first entry for A, which requires B. */
  lemma SelfEntailmentNeedsDistinctHeads()
    ensures
      var a, b := Plain("A"), Plain("B");
      var m := ModuleInterface([a], [], [Dep(a, [b]), Dep(a, [])]);
      CheckModuleEntails(m, m) == Fail(ArgsNotSuperset(a, [b]))
  {
    var a, b := Plain("A"), Plain("B");
    var ds := [Dep(a, [b]), Dep(a, [])];
    var m := ModuleInterface([a], [], ds);
    assert SetDifference([a], [a]) == [];
    assert SetDifference([], []) == [];
    assert SetDifference([b], []) == [b];
    assert CheckDepEntailed(ds[1], ds) == Fail(ArgsNotSuperset(a, [b]));
    assert CheckDepsSubset([ds[1]], ds) == Fail(ArgsNotSuperset(a, [b]));
    assert CheckDepEntailed(ds[0], ds) == Pass;
    assert ds[1..] == [ds[1]];
    assert CheckDepsSubset(ds, ds) == Fail(ArgsNotSuperset(a, [b]));
  }
}
