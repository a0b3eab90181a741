/** Dependencies: "obtaining `head` requires every type in `args`", and the single-step
    rewrites on them (requirement removal, construction, substitution, canonicalization). */
module Deps {
  import opened TypeLists
  import opened Signatures

  /** A dependency, the signature head(args...). */
  datatype Dep = Dep(head: Ty, args: seq<Ty>)

  /** The dependency as the C++ function type it is written as. */
  function DepType(d: Dep): Ty { Fn(d.head, d.args) }

  /** The heads of a dependency list, in order. */
  function Heads(ds: seq<Dep>): (hs: seq<Ty>)
    ensures |hs| == |ds|
    ensures forall i :: 0 <= i < |ds| ==> hs[i] == ds[i].head
  {
    if ds == [] then [] else [ds[0].head] + Heads(ds[1..])
  }

  /** The dependency list as the C++ type List<Ds...> it is written as. */
  function DepsType(ds: seq<Dep>): Ty {
    ListTy(seq(|ds|, i requires 0 <= i < |ds| => DepType(ds[i])))
  }

  /** Every entry of the list is a valid signature. */
  predicate ValidDepList(ds: seq<Dep>) {
    forall i | 0 <= i < |ds| :: IsValidSignature(DepType(ds[i]))
  }

  /** IsValidDeps on the List type of a dependency list is validity of every entry. */
  lemma ValidDepListIff(ds: seq<Dep>)
    ensures IsValidDeps(DepsType(ds)) <==> ValidDepList(ds)
  {
    assert forall i | 0 <= i < |ds| :: DepsType(ds).elems[i] == DepType(ds[i]);
  }

  /** No type in `args` is the head of an entry of `ds`. */
  predicate NoHeadOf(args: seq<Ty>, ds: seq<Dep>) {
    forall j | 0 <= j < |ds| :: ds[j].head !in args
  }

  /** No entry of `ds` has as argument a type that is a head in `ds`. */
  predicate Closed(ds: seq<Dep>) {
    forall i | 0 <= i < |ds| :: NoHeadOf(ds[i].args, ds)
  }

  lemma ClosedTail(ds: seq<Dep>)
    requires |ds| > 0 && Closed(ds)
    ensures Closed(ds[1..])
  {
    forall i | 0 <= i < |ds| - 1 ensures NoHeadOf(ds[1..][i].args, ds[1..]) {
      assert ds[1..][i] == ds[i + 1];
      assert NoHeadOf(ds[i + 1].args, ds);
      forall j | 0 <= j < |ds| - 1 ensures ds[1..][j].head !in ds[i + 1].args {
        assert ds[1..][j] == ds[j + 1];
      }
    }
  }

  /** RemoveRequirementFromDep<C, Dep>: Dep with every requirement for C dropped. */
  function RemoveRequirementFromDep(c: Ty, d: Dep): (r: Dep)
    ensures r.head == d.head
    ensures forall x :: x in r.args <==> x in d.args && x != c
    ensures c !in d.args ==> r == d
  {
    Dep(d.head, RemoveFromList(c, d.args))
  }

  /** RemoveRequirementFromDeps<C, Deps>: the same for every entry, positions kept. */
  function RemoveRequirementFromDeps(c: Ty, ds: seq<Dep>): (r: seq<Dep>)
    ensures Heads(r) == Heads(ds)
    ensures forall i, x :: 0 <= i < |ds| ==> (x in r[i].args <==> x in ds[i].args && x != c)
  {
    var r := seq(|ds|, i requires 0 <= i < |ds| => RemoveRequirementFromDep(c, ds[i]));
    assert Heads(r) == Heads(ds);
    r
  }

  /** ConstructDep<P, Rs>: the signature P*(Rs*...), each requirement once. */
  function ConstructDep(p: Ty, rs: seq<Ty>): (r: Dep)
    ensures r.head == Ptr(p)
    ensures forall t :: Ptr(t) in r.args <==> t in rs
    ensures forall x :: x in r.args ==> x.Ptr?
    ensures NoDup(r.args)
    ensures IsValidSignature(DepType(r))
  {
    var ptrs := AddPointerToList(rs);
    var args := ListToSet(ptrs);
    assert forall x :: x in args <==> x in ptrs;
    assert forall i :: 0 <= i < |args| ==> args[i] in ptrs && !IsList(args[i]);
    assert IsValidSignature(Fn(Ptr(p), args));
    Dep(Ptr(p), args)
  }

  /** ConstructDeps<Rs, Ps...>: for each P, the dependency P*(Rs*...). */
  function ConstructDeps(rs: seq<Ty>, ps: seq<Ty>): (r: seq<Dep>)
    ensures Heads(r) == AddPointerToList(ps)
    ensures forall i, t :: 0 <= i < |r| ==> (Ptr(t) in r[i].args <==> t in rs)
    ensures forall i, j :: 0 <= i < |r| && 0 <= j < |r| ==> r[i].args == r[j].args
    ensures NoDup(ps) ==> NoDup(Heads(r))
    ensures forall i :: 0 <= i < |ps| ==> r[i] == ConstructDep(ps[i], rs)
  {
    seq(|ps|, i requires 0 <= i < |ps| => ConstructDep(ps[i], rs))
  }

  /** ReplaceRequirementsInDep<Dep, R, Rs> as written: the signature Head(L), whose one
      parameter is the List L that replace_with_set returns.  The List is not unpacked into
      the parameters (ConstructSignature is not applied), so the result is never a valid
      signature. */
  function ReplaceRequirementsInDep(d: Dep, r: Ty, rs: seq<Ty>): (res: Dep)
    ensures res.head == d.head
    ensures |res.args| == 1 && IsList(res.args[0])
    ensures r in d.args ==> forall x :: x in res.args[0].elems <==> (x in d.args && x != r) || x in rs
    ensures r !in d.args ==> res.args[0].elems == d.args
    ensures !IsValidSignature(DepType(res))
  {
    Dep(d.head, [ListTy(ReplaceWithSet(r, rs, d.args))])
  }

  /** The alias as written differs from the substitution its comment describes: A(B) with B
      replaced by C gives A(List<C>), not A(C); with nothing to replace, A(B) becomes
      A(List<B>) instead of staying A(B). */
  lemma ReplaceRequirementsInDepWrapsList()
    ensures
      var a, b, c := Plain("A"), Plain("B"), Plain("C");
      && ReplaceRequirementsInDep(Dep(a, [b]), b, [c]) == Dep(a, [ListTy([c])])
      && ReplaceRequirementsInDepUnpacked(Dep(a, [b]), b, [c]) == Dep(a, [c])
      && ReplaceRequirementsInDep(Dep(a, [b]), c, [a]) == Dep(a, [ListTy([b])])
  {
    var a, b, c := Plain("A"), Plain("B"), Plain("C");
    assert RemoveFromList(b, [b]) == [];
    assert SetUnion([], [c]) == [c] by {
      assert SetUnion([c], []) == [c];
    }
    assert ReplaceWithSet(b, [c], [b]) == [c];
    assert ReplaceWithSet(c, [a], [b]) == [b];
  }

  /** ReplaceRequirementsInDep as its comment describes it: in Dep, the requirement R
      replaced by the types in Rs, added as a set.  This is the substitution that
      CanonicalizeDepWithDep performs with R and Rs taken from a dependency R(Rs...). */
  function ReplaceRequirementsInDepUnpacked(d: Dep, r: Ty, rs: seq<Ty>): (res: Dep)
    ensures res.head == d.head
    ensures r !in d.args ==> res == d
    ensures r in d.args ==> forall x :: x in res.args <==> (x in d.args && x != r) || x in rs
    ensures res == CanonicalizeDepWithDep(d, Dep(r, rs))
  {
    Dep(d.head, ReplaceWithSet(r, rs, d.args))
  }

  /** HasSelfLoop<Dep>: the head is among its own requirements. */
  predicate HasSelfLoop(d: Dep) { d.head in d.args }

  /** CanonicalizeDepWithDep<D, D1>: D with D1's head, if required, replaced by D1's
      requirements (added as a set). */
  function CanonicalizeDepWithDep(d: Dep, d1: Dep): (r: Dep)
    ensures r.head == d.head
    ensures d1.head !in d.args ==> r == d
    ensures d1.head in d.args ==> forall x :: x in r.args <==> (x in d.args && x != d1.head) || x in d1.args
    ensures NoDup(d.args) ==> NoDup(r.args)
  {
    Dep(d.head, ReplaceWithSet(d1.head, d1.args, d.args))
  }

  /** Substitution keeps signatures valid: no List enters a valid dependency from a valid one. */
  lemma CanonicalizePreservesValidity(d: Dep, d1: Dep)
    requires IsValidSignature(DepType(d)) && IsValidSignature(DepType(d1))
    ensures IsValidSignature(DepType(CanonicalizeDepWithDep(d, d1)))
  {
    var r := CanonicalizeDepWithDep(d, d1);
    forall i | 0 <= i < |r.args| ensures !IsList(r.args[i]) {
      var x := r.args[i];
      assert x in d.args || x in d1.args;
      if x in d.args {
        var k :| 0 <= k < |d.args| && d.args[k] == x;
      } else {
        var k :| 0 <= k < |d1.args| && d1.args[k] == x;
      }
    }
  }

  /** Canonicalizing a valid dependency against a list of valid dependencies gives a valid one. */
  lemma {:induction false} CanonicalizeDepWithDepsPreservesValidity(dep: Dep, ds: seq<Dep>)
    requires IsValidSignature(DepType(dep)) && ValidDepList(ds)
    ensures IsValidSignature(DepType(CanonicalizeDepWithDeps(dep, ds)))
  {
    if ds != [] {
      assert ValidDepList(ds[1..]) by {
        forall i | 0 <= i < |ds| - 1 ensures IsValidSignature(DepType(ds[1..][i])) {
          assert ds[1..][i] == ds[i + 1];
        }
      }
      CanonicalizeDepWithDepsPreservesValidity(dep, ds[1..]);
      assert IsValidSignature(DepType(ds[0]));
      CanonicalizePreservesValidity(CanonicalizeDepWithDeps(dep, ds[1..]), ds[0]);
    }
  }

  /** CanonicalizeDepsWithDep<Deps, Dep>: every entry of Deps canonicalized with Dep. */
  function CanonicalizeDepsWithDep(ds: seq<Dep>, d: Dep): (r: seq<Dep>)
    ensures |r| == |ds| && Heads(r) == Heads(ds)
    ensures forall i :: 0 <= i < |ds| ==> r[i] == CanonicalizeDepWithDep(ds[i], d)
    ensures !HasSelfLoop(d) ==> forall i :: 0 <= i < |r| ==> d.head !in r[i].args
  {
    var r := seq(|ds|, i requires 0 <= i < |ds| => CanonicalizeDepWithDep(ds[i], d));
    assert Heads(r) == Heads(ds);
    r
  }

  /** CanonicalizeDepWithDeps<Dep, Deps>: Dep canonicalized with the entries of Deps, the
      last entry first and the first entry last. */
  function CanonicalizeDepWithDeps(dep: Dep, ds: seq<Dep>): (r: Dep)
    ensures r.head == dep.head
    ensures forall x :: x in r.args ==> x in dep.args || exists j :: 0 <= j < |ds| && x in ds[j].args
  {
    if ds == [] then dep
    else
      var rest := CanonicalizeDepWithDeps(dep, ds[1..]);
      assert forall x :: x in rest.args ==> x in dep.args || exists j :: 0 <= j < |ds| && x in ds[j].args by {
        forall x | x in rest.args && x !in dep.args ensures exists j :: 0 <= j < |ds| && x in ds[j].args {
          var j :| 0 <= j < |ds| - 1 && x in ds[1..][j].args;
          assert ds[1..][j] == ds[j + 1];
        }
      }
      CanonicalizeDepWithDep(rest, ds[0])
  }

  /** Against a closed list, canonicalization leaves no head of the list among Dep's
      requirements (the claim at the head of AddDep). */
  lemma {:induction false} CanonicalizeDepWithDepsResolvesHeads(dep: Dep, ds: seq<Dep>)
    requires Closed(ds)
    ensures NoHeadOf(CanonicalizeDepWithDeps(dep, ds).args, ds)
  {
    if ds != [] {
      ClosedTail(ds);
      CanonicalizeDepWithDepsResolvesHeads(dep, ds[1..]);
      var rest := CanonicalizeDepWithDeps(dep, ds[1..]);
      var r := CanonicalizeDepWithDep(rest, ds[0]);
      assert NoHeadOf(ds[0].args, ds);
      assert r.args == ReplaceWithSet(ds[0].head, ds[0].args, rest.args);
      assert forall x :: x in r.args ==> (x in rest.args && x != ds[0].head) || x in ds[0].args;
      forall j | 0 <= j < |ds| ensures ds[j].head !in r.args {
        var h := ds[j].head;
        assert h !in ds[0].args;
        if j > 0 {
          assert ds[1..][j - 1] == ds[j];
          assert h !in rest.args;
        }
      }
    }
  }

  /** Against a closed list with distinct heads, canonicalization is substitution: a
      requirement of Dep survives exactly when it is no head of the list, and every entry
      whose head Dep requires contributes all of its requirements. */
  lemma {:induction false} CanonicalizeDepWithDepsMeaning(dep: Dep, ds: seq<Dep>, x: Ty)
    requires Closed(ds) && NoDup(Heads(ds))
    ensures x in CanonicalizeDepWithDeps(dep, ds).args <==>
      (x in dep.args && x !in Heads(ds)) || exists j :: 0 <= j < |ds| && ds[j].head in dep.args && x in ds[j].args
  {
    if ds != [] {
      ClosedTail(ds);
      NoDupTail(Heads(ds));
      assert Heads(ds)[1..] == Heads(ds[1..]);
      var rest := CanonicalizeDepWithDeps(dep, ds[1..]);
      var h0 := ds[0].head;
      assert h0 !in Heads(ds[1..]);
      assert NoHeadOf(ds[0].args, ds);
      assert x in ds[0].args ==> x !in Heads(ds);
      CanonicalizeDepWithDepsMeaning(dep, ds[1..], x);
      CanonicalizeDepWithDepsMeaning(dep, ds[1..], h0);
      assert h0 in rest.args <==> h0 in dep.args by {
        forall j | 0 <= j < |ds| - 1 ensures h0 !in ds[1..][j].args {
          assert ds[1..][j] == ds[j + 1];
          assert NoHeadOf(ds[j + 1].args, ds);
        }
      }
      assert Heads(ds) == [h0] + Heads(ds[1..]);
      var tailHit := exists j :: 0 <= j < |ds| - 1 && ds[1..][j].head in dep.args && x in ds[1..][j].args;
      var allHit := exists j :: 0 <= j < |ds| && ds[j].head in dep.args && x in ds[j].args;
      assert allHit <==> (h0 in dep.args && x in ds[0].args) || tailHit by {
        if tailHit {
          var j :| 0 <= j < |ds| - 1 && ds[1..][j].head in dep.args && x in ds[1..][j].args;
          assert ds[1..][j] == ds[j + 1];
        }
        if allHit {
          var j :| 0 <= j < |ds| && ds[j].head in dep.args && x in ds[j].args;
          if j > 0 {
            assert ds[1..][j - 1] == ds[j];
          }
        }
      }
    }
  }

  /** A Dep that already requires no head of the list is left as it is. */
  lemma {:induction false} CanonicalizeDepWithDepsNoop(dep: Dep, ds: seq<Dep>)
    requires NoHeadOf(dep.args, ds)
    ensures CanonicalizeDepWithDeps(dep, ds) == dep
  {
    if ds != [] {
      assert NoHeadOf(dep.args, ds[1..]) by {
        forall j | 0 <= j < |ds| - 1 ensures ds[1..][j].head !in dep.args {
          assert ds[1..][j] == ds[j + 1];
        }
      }
      CanonicalizeDepWithDepsNoop(dep, ds[1..]);
    }
  }

  /** Canonicalizing against a closed list is idempotent. */
  lemma {:induction false} CanonicalizeDepWithDepsIdempotent(dep: Dep, ds: seq<Dep>)
    requires Closed(ds)
    ensures CanonicalizeDepWithDeps(CanonicalizeDepWithDeps(dep, ds), ds) == CanonicalizeDepWithDeps(dep, ds)
  {
    CanonicalizeDepWithDepsResolvesHeads(dep, ds);
    CanonicalizeDepWithDepsNoop(CanonicalizeDepWithDeps(dep, ds), ds);
  }
}
