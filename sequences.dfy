/** Sequences built by appending: the values a loop appends when it finds
    something (`Somes`), lists joined one after another (`Flatten`). */
module Sequences {
  import opened Wrappers

  /** The present values of `xs`, in order. */
  function Somes<T>(xs: seq<Option<T>>): (ys: seq<T>)
    ensures |ys| <= |xs|
  {
    if xs == [] then []
    else
      var prev := Somes(xs[..|xs| - 1]);
      match xs[|xs| - 1]
      case None => prev
      case Some(y) => prev + [y]
  }

  /** Where those values sit in `xs`. */
  function SomePositions<T>(xs: seq<Option<T>>): (ps: seq<nat>)
    ensures |ps| == |Somes(xs)|
  {
    if xs == [] then []
    else
      var prev := SomePositions(xs[..|xs| - 1]);
      if xs[|xs| - 1].Some? then prev + [|xs| - 1] else prev
  }

  /** Each present value comes from its position, the positions increase,
      and every present value is taken. */
  lemma {:induction false} SomesSpec<T>(xs: seq<Option<T>>)
    ensures var ys, ps := Somes(xs), SomePositions(xs);
      && (forall k :: 0 <= k < |ys| ==> ps[k] < |xs| && xs[ps[k]] == Some(ys[k]))
      && (forall k1, k2 :: 0 <= k1 < k2 < |ys| ==> ps[k1] < ps[k2])
      && (forall i :: 0 <= i < |xs| && xs[i].Some? ==> exists k :: 0 <= k < |ys| && ps[k] == i)
  {
    if xs != [] {
      var init := xs[..|xs| - 1];
      SomesSpec(init);
      var ys, ps := Somes(xs), SomePositions(xs);
      var ys0, ps0 := Somes(init), SomePositions(init);
      assert forall i :: 0 <= i < |init| ==> init[i] == xs[i];
      assert forall k :: 0 <= k < |ys0| ==> ys[k] == ys0[k] && ps[k] == ps0[k];
      if xs[|xs| - 1].Some? {
        assert ys[|ys0|] == xs[|xs| - 1].value && ps[|ps0|] == |xs| - 1;
      }
      forall i | 0 <= i < |xs| && xs[i].Some?
        ensures exists k :: 0 <= k < |ys| && ps[k] == i
      {
        if i < |init| {
          var k :| 0 <= k < |ys0| && ps0[k] == i;
          assert ps[k] == i;
        } else {
          assert ps[|ps0|] == i;
        }
      }
    }
  }

  /** Every present value of `xs` is among its `Somes`. */
  lemma SomeTaken<T>(xs: seq<Option<T>>, i: nat)
    requires i < |xs| && xs[i].Some?
    ensures xs[i].value in Somes(xs)
  {
    SomesSpec(xs);
    var k :| 0 <= k < |Somes(xs)| && SomePositions(xs)[k] == i;
    assert Somes(xs)[k] == xs[i].value;
  }

  /** The `k`th present value, at its position. */
  lemma SomeAt<T>(xs: seq<Option<T>>, k: nat)
    requires k < |Somes(xs)|
    ensures SomePositions(xs)[k] < |xs| && xs[SomePositions(xs)[k]] == Some(Somes(xs)[k])
  {
    SomesSpec(xs);
  }

  /** Present values keep the order of their positions. */
  lemma SomesOrdered<T>(xs: seq<Option<T>>, k1: nat, k2: nat)
    requires k1 < k2 < |Somes(xs)|
    ensures SomePositions(xs)[k1] < SomePositions(xs)[k2]
  {
    SomesSpec(xs);
  }

  /** One more element adds its value, if present, at the end. */
  lemma SomesSnoc<T>(xs: seq<Option<T>>, x: Option<T>)
    ensures Somes(xs + [x]) == Somes(xs) + (if x.Some? then [x.value] else [])
  {
    assert (xs + [x])[..|xs + [x]| - 1] == xs;
  }

  lemma SomesOne<T>(x: Option<T>)
    ensures Somes([x]) == if x.Some? then [x.value] else []
  {
    assert [x][..0] == [];
  }

  /** The groups one after the other. */
  function Flatten<T>(groups: seq<seq<T>>): seq<T>
  {
    if groups == [] then [] else Flatten(groups[..|groups| - 1]) + groups[|groups| - 1]
  }

  /** An element is in the concatenation exactly when it is in one group. */
  lemma {:induction false} FlattenMembers<T>(groups: seq<seq<T>>)
    ensures forall f, e :: 0 <= f < |groups| && e in groups[f] ==> e in Flatten(groups)
    ensures forall e :: e in Flatten(groups) ==> exists f :: 0 <= f < |groups| && e in groups[f]
  {
    if groups != [] {
      var init := groups[..|groups| - 1];
      var last := |groups| - 1;
      FlattenMembers(init);
      assert Flatten(groups) == Flatten(init) + groups[last];
      assert forall f :: 0 <= f < |init| ==> init[f] == groups[f];
      forall e | e in Flatten(groups)
        ensures exists f :: 0 <= f < |groups| && e in groups[f]
      {
        if e in Flatten(init) {
          var f :| 0 <= f < |init| && e in init[f];
          assert e in groups[f];
        } else {
          assert e in groups[last];
        }
      }
    }
  }

  lemma FlattenOne<T>(g: seq<T>)
    ensures Flatten([g]) == g
  {
    assert [g][..0] == [];
  }

  lemma Associative<T>(a: seq<T>, b: seq<T>, c: seq<T>)
    ensures a + b + c == a + (b + c)
  {
  }

  /** Where a member of the concatenation sits in the groups. */
  lemma FlattenOrigin<T>(groups: seq<seq<T>>, e: T) returns (f: nat, k: nat)
    requires e in Flatten(groups)
    ensures f < |groups| && k < |groups[f]| && groups[f][k] == e
  {
    FlattenMembers(groups);
    f :| 0 <= f < |groups| && e in groups[f];
    k :| 0 <= k < |groups[f]| && groups[f][k] == e;
  }
}
