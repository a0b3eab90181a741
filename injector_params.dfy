/** Injector parameter expansion: an Injector<Ts...> among the parameters of an injector
    stands for all of Ts. */
module InjectorParams {
  import opened TypeLists

  /** What one parameter expands to: the types of an Injector<Ts...>, or itself. */
  function Expansion(t: Ty): seq<Ty> {
    if t.InjectorTy? then t.provided else [t]
  }

  /** The sum of the expanded lengths of the parameters. */
  function ExpandedSize(l: seq<Ty>): nat {
    if l == [] then 0 else |Expansion(l[0])| + ExpandedSize(l[1..])
  }

  /** ExpandInjectorsInParams<L>: every Injector<Ts...> in L replaced in place by Ts (one
      level: an Injector among Ts is kept as it is). */
  function ExpandInjectorsInParams(l: seq<Ty>): (r: seq<Ty>)
    ensures |r| == ExpandedSize(l)
  {
    if l == [] then []
    else
      var rest := ExpandInjectorsInParams(l[1..]);
      match l[0]
      case InjectorTy(ts) => ts + rest
      case _ => [l[0]] + rest
  }

  lemma ExpandCons(l: seq<Ty>)
    requires l != []
    ensures ExpandInjectorsInParams(l) == Expansion(l[0]) + ExpandInjectorsInParams(l[1..])
  {
  }

  /** A type occurs in the expansion exactly when it occurs in the expansion of some parameter. */
  lemma {:induction false} ExpandMembership(l: seq<Ty>, x: Ty)
    ensures x in ExpandInjectorsInParams(l) <==> exists i :: 0 <= i < |l| && x in Expansion(l[i])
  {
    if l != [] {
      ExpandMembership(l[1..], x);
      assert ExpandInjectorsInParams(l) == Expansion(l[0]) + ExpandInjectorsInParams(l[1..]);
      assert forall i :: 0 < i < |l| ==> l[i] == l[1..][i - 1];
      if x in ExpandInjectorsInParams(l[1..]) {
        var i :| 0 <= i < |l| - 1 && x in Expansion(l[1..][i]);
        assert x in Expansion(l[i + 1]);
      }
    }
  }

  /** Expansion distributes over concatenation. */
  lemma {:induction false} ExpandAppend(a: seq<Ty>, b: seq<Ty>)
    ensures ExpandInjectorsInParams(a + b) == ExpandInjectorsInParams(a) + ExpandInjectorsInParams(b)
  {
    if a != [] {
      assert (a + b)[1..] == a[1..] + b;
      ExpandAppend(a[1..], b);
      assert ExpandInjectorsInParams(a) == Expansion(a[0]) + ExpandInjectorsInParams(a[1..]);
      assert ExpandInjectorsInParams(a + b) == Expansion(a[0]) + ExpandInjectorsInParams(a[1..] + b);
    } else {
      assert a + b == b;
    }
  }

  /** Each parameter is replaced in place: what precedes and what follows it are expanded
      independently and keep their relative order. */
  lemma {:induction false} ExpandInPlace(l: seq<Ty>, k: nat)
    requires k < |l|
    ensures ExpandInjectorsInParams(l)
         == ExpandInjectorsInParams(l[..k]) + Expansion(l[k]) + ExpandInjectorsInParams(l[k + 1..])
  {
    var tail := l[k..];
    assert l == l[..k] + tail;
    ExpandAppend(l[..k], tail);
    assert tail[0] == l[k] && tail[1..] == l[k + 1..];
    ExpandCons(tail);
  }

  /** Without Injector parameters, expansion is the identity. */
  lemma {:induction false} ExpandWithoutInjectors(l: seq<Ty>)
    requires forall i :: 0 <= i < |l| ==> !l[i].InjectorTy?
    ensures ExpandInjectorsInParams(l) == l
  {
    if l != [] {
      assert forall i :: 0 <= i < |l| - 1 ==> l[1..][i] == l[i + 1];
      ExpandWithoutInjectors(l[1..]);
    }
  }

  /** [R, Injector<P, Q>, S] expands to [R, P, Q, S]. */
  lemma ExpandScenario()
    ensures
      var p, q, r, s := Plain("P"), Plain("Q"), Plain("R"), Plain("S");
      ExpandInjectorsInParams([r, InjectorTy([p, q]), s]) == [r, p, q, s]
  {
    var p, q, r, s := Plain("P"), Plain("Q"), Plain("R"), Plain("S");
    assert [r, InjectorTy([p, q]), s][1..] == [InjectorTy([p, q]), s];
    assert [InjectorTy([p, q]), s][1..] == [s];
    assert ExpandInjectorsInParams([s]) == [s];
  }
}
