/** Dependency-list merge: AddDep inserts one dependency into a list, AddDeps folds a
    whole batch in. */
module Merge {
  import opened TypeLists
  import opened Diagnostics
  import opened Deps
  import opened Signatures

  /** AddDep<Dep, Deps>: Dep canonicalized with Deps, then every entry of Deps canonicalized
      with it, the new entry in front.  The self-loop check looks at Dep as given, before
      canonicalization. */
  function AddDep(dep: Dep, ds: seq<Dep>): (r: Result<seq<Dep>>)
    ensures r.Err? <==> HasSelfLoop(dep)
    ensures r.Err? ==> r.error == SelfLoop(dep.head)
    ensures r.Ok? ==> Heads(r.value) == [dep.head] + Heads(ds)
    ensures r.Ok? ==> r.value[0] == CanonicalizeDepWithDeps(dep, ds)
    ensures r.Ok? ==> forall i :: 0 <= i < |ds| ==> r.value[i + 1] == CanonicalizeDepWithDep(ds[i], r.value[0])
  {
    var c := CanonicalizeDepWithDeps(dep, ds);
    if HasSelfLoop(dep) then Err(SelfLoop(dep.head))
    else
      var res := [c] + CanonicalizeDepsWithDep(ds, c);
      assert Heads(res) == [dep.head] + Heads(ds) by {
        assert Heads(res) == [c.head] + Heads(res[1..]);
        assert res[1..] == CanonicalizeDepsWithDep(ds, c);
      }
      Ok(res)
  }

  /** After a successful AddDep whose canonicalized entry is free of self-loops, no entry of
      the result requires the new head any more: it has been resolved everywhere. */
  lemma AddDepResolvesNewHead(dep: Dep, ds: seq<Dep>)
    requires AddDep(dep, ds).Ok?
    requires !HasSelfLoop(AddDep(dep, ds).value[0])
    ensures forall i :: 0 <= i < |AddDep(dep, ds).value| ==> dep.head !in AddDep(dep, ds).value[i].args
  {
    var r := AddDep(dep, ds).value;
    var c := r[0];
    forall i | 0 <= i < |r| ensures dep.head !in r[i].args {
      if i > 0 {
        assert r[i] == CanonicalizeDepWithDep(ds[i - 1], c);
      }
    }
  }

  /** A successful merge of a valid dependency into a list of valid dependencies gives a
      list of valid dependencies. */
  lemma AddDepPreservesValidity(dep: Dep, ds: seq<Dep>)
    requires IsValidSignature(DepType(dep)) && ValidDepList(ds)
    requires AddDep(dep, ds).Ok?
    ensures ValidDepList(AddDep(dep, ds).value)
  {
    var r := AddDep(dep, ds).value;
    CanonicalizeDepWithDepsPreservesValidity(dep, ds);
    forall i | 0 <= i < |r| ensures IsValidSignature(DepType(r[i])) {
      if i > 0 {
        assert r[i] == CanonicalizeDepWithDep(ds[i - 1], r[0]);
        assert IsValidSignature(DepType(ds[i - 1]));
        CanonicalizePreservesValidity(ds[i - 1], r[0]);
      }
    }
  }

  /** One substitution step per entry suffices: merging into a closed list keeps it closed,
      provided the canonicalized entry has no self-loop. */
  lemma {:induction false} AddDepClosed(dep: Dep, ds: seq<Dep>)
    requires Closed(ds)
    requires !HasSelfLoop(dep)
    requires !HasSelfLoop(CanonicalizeDepWithDeps(dep, ds))
    ensures AddDep(dep, ds).Ok? && Closed(AddDep(dep, ds).value)
  {
    var r := AddDep(dep, ds).value;
    var c := r[0];
    CanonicalizeDepWithDepsResolvesHeads(dep, ds);
    assert NoHeadOf(c.args, ds);
    forall i | 0 <= i < |r| ensures NoHeadOf(r[i].args, r) {
      forall j | 0 <= j < |r| ensures r[j].head !in r[i].args {
        if i > 0 {
          assert r[i] == CanonicalizeDepWithDep(ds[i - 1], c);
          assert NoHeadOf(ds[i - 1].args, ds);
        }
        if j > 0 {
          assert r[j].head == Heads(r)[j] == ds[j - 1].head;
        }
      }
    }
  }

  /** The single-step guarantee needs the precondition on the canonicalized entry: AddDep
      accepts A(B) into [B(A)], because A(B) itself has no self-loop, and returns a list
      that is not closed (a two-step cycle goes undetected). */
  lemma AddDepMissesTwoStepCycle()
    ensures
      var a, b := Plain("A"), Plain("B");
      && AddDep(Dep(a, [b]), [Dep(b, [a])]) == Ok([Dep(a, [a]), Dep(b, [a])])
      && !Closed(AddDep(Dep(a, [b]), [Dep(b, [a])]).value)
  {
    var a, b := Plain("A"), Plain("B");
    assert [Dep(b, [a])][1..] == [];
    assert CanonicalizeDepWithDeps(Dep(a, [b]), []) == Dep(a, [b]);
    assert RemoveFromList(b, [b]) == [];
    assert SetUnion([], [a]) == [a] by {
      assert SetUnion([a], []) == [a];
    }
    assert ReplaceWithSet(b, [a], [b]) == [a];
    var c := CanonicalizeDepWithDeps(Dep(a, [b]), [Dep(b, [a])]);
    assert c == CanonicalizeDepWithDep(Dep(a, [b]), Dep(b, [a]));
    assert c == Dep(a, [a]);
    assert RemoveFromList(a, [a]) == [];
    assert CanonicalizeDepWithDep(Dep(b, [a]), c) == Dep(b, [a]);
    var r := AddDep(Dep(a, [b]), [Dep(b, [a])]).value;
    assert r == [Dep(a, [a]), Dep(b, [a])];
    assert r[0].head in r[0].args;
  }

  /** "A needs B" merged into ["B needs C"]: A ends up requiring C and no longer B. */
  lemma AddDepSubstitutesRequirement()
    ensures
      var a, b, c := Plain("A"), Plain("B"), Plain("C");
      AddDep(Dep(a, [b]), [Dep(b, [c])]) == Ok([Dep(a, [c]), Dep(b, [c])])
  {
    var a, b, c := Plain("A"), Plain("B"), Plain("C");
    assert CanonicalizeDepWithDeps(Dep(a, [b]), []) == Dep(a, [b]);
    assert RemoveFromList(b, [b]) == [];
    assert SetUnion([], [c]) == [c] by {
      assert SetUnion([c], []) == [c];
    }
    assert [Dep(b, [c])][1..] == [];
    assert ReplaceWithSet(b, [c], [b]) == [c];
    var cd := CanonicalizeDepWithDeps(Dep(a, [b]), [Dep(b, [c])]);
    assert cd == CanonicalizeDepWithDep(Dep(a, [b]), Dep(b, [c]));
    assert cd == Dep(a, [c]);
    assert CanonicalizeDepWithDep(Dep(b, [c]), cd) == Dep(b, [c]);
    var r := AddDep(Dep(a, [b]), [Dep(b, [c])]).value;
    assert r == [Dep(a, [c]), Dep(b, [c])];
  }

  /** Prepending one head regroups with concatenation. */
  lemma ConsAssoc(h: Ty, a: seq<Ty>, b: seq<Ty>)
    ensures [h] + (a + b) == ([h] + a) + b
  {
  }

  /** AddDeps<Deps, OtherDeps>: the entries of Deps merged into OtherDeps one by one, the
      last entry of Deps first.  The entries of Deps come first in the result, in order. */
  function AddDeps(ds: seq<Dep>, other: seq<Dep>): (r: Result<seq<Dep>>)
    ensures r.Ok? ==> Heads(r.value) == Heads(ds) + Heads(other)
  {
    if ds == [] then Ok(other)
    else
      match AddDeps(ds[1..], other)
      case Err(e) => Err(e)
      case Ok(merged) =>
        assert Heads(ds) == [ds[0].head] + Heads(ds[1..]);
        ConsAssoc(ds[0].head, Heads(ds[1..]), Heads(other));
        AddDep(ds[0], merged)
  }

  /** AddDeps fails exactly when some entry of Deps has a self-loop, and then reports the
      last such entry (the first one merged). */
  lemma {:induction false} AddDepsFailsIff(ds: seq<Dep>, other: seq<Dep>)
    ensures AddDeps(ds, other).Err? <==> exists i :: 0 <= i < |ds| && HasSelfLoop(ds[i])
    ensures AddDeps(ds, other).Err? ==>
      exists i :: 0 <= i < |ds| && HasSelfLoop(ds[i]) && AddDeps(ds, other).error == SelfLoop(ds[i].head)
                  && forall j :: i < j < |ds| ==> !HasSelfLoop(ds[j])
  {
    if ds != [] {
      AddDepsFailsIff(ds[1..], other);
      assert forall j :: 0 < j < |ds| ==> ds[j] == ds[1..][j - 1];
      var rest := AddDeps(ds[1..], other);
      if rest.Err? {
        var i :| 0 <= i < |ds| - 1 && HasSelfLoop(ds[1..][i]) && rest.error == SelfLoop(ds[1..][i].head)
                 && forall j :: i < j < |ds| - 1 ==> !HasSelfLoop(ds[1..][j]);
        assert ds[i + 1] == ds[1..][i];
      } else {
        assert forall j :: 0 < j < |ds| ==> !HasSelfLoop(ds[j]);
      }
    }
  }

  /** A successful batch merge of valid dependencies keeps every entry valid. */
  lemma {:induction false} AddDepsPreservesValidity(ds: seq<Dep>, other: seq<Dep>)
    requires ValidDepList(ds) && ValidDepList(other)
    requires AddDeps(ds, other).Ok?
    ensures ValidDepList(AddDeps(ds, other).value)
  {
    if ds != [] {
      assert ValidDepList(ds[1..]) by {
        forall i | 0 <= i < |ds| - 1 ensures IsValidSignature(DepType(ds[1..][i])) {
          assert ds[1..][i] == ds[i + 1];
        }
      }
      assert IsValidSignature(DepType(ds[0]));
      AddDepsPreservesValidity(ds[1..], other);
      AddDepPreservesValidity(ds[0], AddDeps(ds[1..], other).value);
    }
  }

  /** Every merge step of AddDeps<Deps, OtherDeps> produces a canonicalized entry without
      self-loop. */
  predicate MergesCleanly(ds: seq<Dep>, other: seq<Dep>) {
    ds == [] ||
    (MergesCleanly(ds[1..], other) &&
     match AddDeps(ds[1..], other)
     case Err(_) => false
     case Ok(merged) => !HasSelfLoop(ds[0]) && !HasSelfLoop(CanonicalizeDepWithDeps(ds[0], merged)))
  }

  /** Closure after a batch merge: folding clean steps into a closed list gives a closed list. */
  lemma {:induction false} AddDepsClosed(ds: seq<Dep>, other: seq<Dep>)
    requires Closed(other)
    requires MergesCleanly(ds, other)
    ensures AddDeps(ds, other).Ok? && Closed(AddDeps(ds, other).value)
  {
    if ds != [] {
      AddDepsClosed(ds[1..], other);
      AddDepClosed(ds[0], AddDeps(ds[1..], other).value);
    }
  }
}
