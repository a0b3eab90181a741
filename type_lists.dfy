/** Type descriptors and the type-level list/set algebra the dependency code is built on.
    The list primitives (`remove_from_list`, `list_to_set`, `replace_with_set`,
    `set_difference`, `AddPointerToList`) live in a utility header that is not part of this
    model; they are given here with their evident meaning, and each contract below states
    that meaning. */
module TypeLists {

  /** A C++ type, as far as the dependency algebra looks into it. */
  datatype Ty =
    | Plain(name: string)               // a class or builtin type
    | ListTy(elems: seq<Ty>)            // fruit::impl::List<Ts...>
    | Ptr(pointee: Ty)                  // T*
    | InjectorTy(provided: seq<Ty>)     // fruit::Injector<Ts...>
    | Fn(result: Ty, params: seq<Ty>)   // the function type T(Args...), used as a signature

  /** is_list<T> */
  predicate IsList(t: Ty) { t.ListTy? }

  predicate NoDup(s: seq<Ty>) {
    forall i, j | 0 <= i < j < |s| :: s[i] != s[j]
  }

  lemma NoDupTail(s: seq<Ty>)
    requires |s| > 0 && NoDup(s)
    ensures NoDup(s[1..]) && s[0] !in s[1..]
  {
    forall i, j | 0 <= i < j < |s| - 1 ensures s[1..][i] != s[1..][j] {
      assert s[1..][i] == s[i + 1] && s[1..][j] == s[j + 1];
    }
  }

  lemma NoDupCons(x: Ty, s: seq<Ty>)
    requires NoDup(s) && x !in s
    ensures NoDup([x] + s)
  {
    forall i, j | 0 <= i < j < |s| + 1 ensures ([x] + s)[i] != ([x] + s)[j] {
      assert ([x] + s)[j] == s[j - 1];
    }
  }

  lemma NoDupSnoc(s: seq<Ty>, x: Ty)
    requires NoDup(s) && x !in s
    ensures NoDup(s + [x])
  {
    forall i, j | 0 <= i < j < |s| + 1 ensures (s + [x])[i] != (s + [x])[j] {
      assert (s + [x])[i] == s[i];
    }
  }

  /** remove_from_list<C, L>: L without any occurrence of C, in its original order. */
  function RemoveFromList(c: Ty, l: seq<Ty>): (r: seq<Ty>)
    ensures forall x :: x in r <==> x in l && x != c
    ensures |r| <= |l|
    ensures c !in l ==> r == l
    ensures NoDup(l) ==> NoDup(r)
  {
    if l == [] then []
    else if l[0] == c then RemoveFromList(c, l[1..])
    else
      var rest := RemoveFromList(c, l[1..]);
      assert NoDup(l) ==> NoDup([l[0]] + rest) by {
        if NoDup(l) { NoDupTail(l); NoDupCons(l[0], rest); }
      }
      [l[0]] + rest
  }

  /** list_to_set<L>: the elements of L, each once (the last occurrence is kept). */
  function ListToSet(l: seq<Ty>): (r: seq<Ty>)
    ensures forall x :: x in r <==> x in l
    ensures NoDup(r)
    ensures |r| <= |l|
    ensures NoDup(l) ==> r == l
  {
    if l == [] then []
    else if l[0] in l[1..] then
      assert NoDup(l) ==> false by { if NoDup(l) { NoDupTail(l); } }
      ListToSet(l[1..])
    else
      var rest := ListToSet(l[1..]);
      NoDupCons(l[0], rest);
      assert NoDup(l) ==> rest == l[1..] by { if NoDup(l) { NoDupTail(l); } }
      [l[0]] + rest
  }

  /** The set union that `replace_with_set` performs: A followed by the elements of B
      that are not yet present, in B's order, each once. */
  function SetUnion(a: seq<Ty>, b: seq<Ty>): (r: seq<Ty>)
    ensures forall x :: x in r <==> x in a || x in b
    ensures |a| <= |r| && r[..|a|] == a
    ensures NoDup(a) ==> NoDup(r)
    ensures (forall x :: x in b ==> x in a) ==> r == a
    decreases |b|
  {
    if b == [] then a
    else if b[0] in a then SetUnion(a, b[1..])
    else
      assert NoDup(a) ==> NoDup(a + [b[0]]) by { if NoDup(a) { NoDupSnoc(a, b[0]); } }
      var r := SetUnion(a + [b[0]], b[1..]);
      assert r[..|a|] == (r[..|a| + 1])[..|a|];
      r
  }

  /** replace_with_set<R, Rs, L>: when R occurs in L, L without R united with Rs;
      otherwise L itself. */
  function ReplaceWithSet(r: Ty, rs: seq<Ty>, l: seq<Ty>): (res: seq<Ty>)
    ensures r !in l ==> res == l
    ensures r in l ==> forall x :: x in res <==> (x in l && x != r) || x in rs
    ensures forall x :: x in res ==> x in l || x in rs
    ensures NoDup(l) ==> NoDup(res)
  {
    if r in l then SetUnion(RemoveFromList(r, l), rs) else l
  }

  /** set_difference<A, B>: the elements of A that are not in B, in A's order. */
  function SetDifference(a: seq<Ty>, b: seq<Ty>): (r: seq<Ty>)
    ensures forall x :: x in r <==> x in a && x !in b
    ensures r == [] <==> forall x :: x in a ==> x in b
  {
    if a == [] then []
    else if a[0] in b then SetDifference(a[1..], b)
    else [a[0]] + SetDifference(a[1..], b)
  }

  /** AddPointerToList<L>: every element T of L replaced by T*. */
  function AddPointerToList(l: seq<Ty>): (r: seq<Ty>)
    ensures |r| == |l|
    ensures forall i :: 0 <= i < |l| ==> r[i] == Ptr(l[i])
    ensures forall t :: Ptr(t) in r <==> t in l
    ensures forall x :: x in r ==> x.Ptr?
  {
    if l == [] then []
    else
      var rest := AddPointerToList(l[1..]);
      assert forall t :: t in l <==> t == l[0] || t in l[1..];
      [Ptr(l[0])] + rest
  }
}
