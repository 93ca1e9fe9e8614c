/**
 Multi-hop reachability over a finite binary relation. This is the meaning of
 the transitive-closure graphs the dependency helpers build: `y` is a
 neighbour of `x` in the closure iff a path of one or more edges leads from
 `x` to `y`.
 */
module Reachability {

  /** The nodes one step away from some node of `s`. */
  function Image<T(==,!new)>(rel: set<(T, T)>, s: set<T>): (r: set<T>)
    ensures forall y :: y in r <==> exists x :: x in s && (x, y) in rel
  {
    set p | p in rel && p.0 in s :: p.1
  }

  /** The image of a single node is its set of direct successors. */
  lemma ImageOfOne<T(!new)>(rel: set<(T, T)>, x: T, y: T)
    ensures y in Image(rel, {x}) <==> (x, y) in rel
  {
  }

  /** Every node that some step of `rel` leads to. */
  function Targets<T(==,!new)>(rel: set<(T, T)>): (r: set<T>)
    ensures forall y :: y in r <==> exists x :: (x, y) in rel
  {
    set p | p in rel :: p.1
  }

  /** The relation with every step turned around. */
  function Reverse<T(==,!new)>(rel: set<(T, T)>): (r: set<(T, T)>)
    ensures forall x, y :: (x, y) in r <==> (y, x) in rel
  {
    set p | p in rel :: (p.1, p.0)
  }

  /** No step of `rel` leaves `s`. */
  ghost predicate Closed<T(!new)>(rel: set<(T, T)>, s: set<T>) {
    Image(rel, s) <= s
  }

  /** `p` is a walk of one or more steps of `rel`. */
  ghost predicate IsPath<T(!new)>(rel: set<(T, T)>, p: seq<T>) {
    |p| >= 2 && forall i :: 0 <= i < |p| - 1 ==> (p[i], p[i + 1]) in rel
  }

  /** A walk of one or more steps of `rel` leads from `x` to `y`. */
  ghost predicate Reaches<T(!new)>(rel: set<(T, T)>, x: T, y: T) {
    exists p :: IsPath(rel, p) && p[0] == x && p[|p| - 1] == y
  }

  /** A subset is no larger. */
  lemma {:induction false} SubsetNoLarger<T(!new)>(a: set<T>, b: set<T>)
    requires a <= b
    ensures |a| <= |b|
    decreases |a|
  {
    if a != {} {
      var x :| x in a;
      SubsetNoLarger(a - {x}, b - {x});
    }
  }

  /** A proper subset is strictly smaller. */
  lemma ProperSubsetSmaller<T(!new)>(a: set<T>, b: set<T>)
    requires a < b
    ensures |a| < |b|
  {
    assert b - a != {};
    var x :| x in b - a;
    SubsetNoLarger(a, b - {x});
  }

  /** Adds successors to `s` until nothing new appears. The result is the
      least superset of `s` closed under `rel`. */
  function Saturate<T(==,!new)>(rel: set<(T, T)>, s: set<T>): (r: set<T>)
    requires s <= Targets(rel)
    ensures s <= r <= Targets(rel)
    ensures Closed(rel, r)
    ensures forall t :: s <= t && Closed(rel, t) ==> r <= t
    decreases |Targets(rel) - s|
  {
    var next := s + Image(rel, s);
    if next <= s then s
    else
      ProperSubsetSmaller(Targets(rel) - next, Targets(rel) - s);
      Saturate(rel, next)
  }

  /** The nodes reachable from `x` by one or more steps: the neighbours of `x`
      in the transitive-closure graph. */
  function ReachFrom<T(==,!new)>(rel: set<(T, T)>, x: T): (r: set<T>)
    ensures Image(rel, {x}) <= r
    ensures Closed(rel, r)
  {
    Saturate(rel, Image(rel, {x}))
  }

  /** A single step is a walk. */
  lemma StepReaches<T(!new)>(rel: set<(T, T)>, x: T, y: T)
    requires (x, y) in rel
    ensures Reaches(rel, x, y)
  {
    assert IsPath(rel, [x, y]);
  }

  /** A walk can be extended by one more step. */
  lemma ReachesStep<T(!new)>(rel: set<(T, T)>, x: T, y: T, z: T)
    requires Reaches(rel, x, y) && (y, z) in rel
    ensures Reaches(rel, x, z)
  {
    var p :| IsPath(rel, p) && p[0] == x && p[|p| - 1] == y;
    var q := p + [z];
    forall i | 0 <= i < |q| - 1
      ensures (q[i], q[i + 1]) in rel
    {
      if i < |p| - 1 {
        assert q[i] == p[i] && q[i + 1] == p[i + 1];
      } else {
        assert q[i] == y && q[i + 1] == z;
      }
    }
    assert IsPath(rel, q) && q[0] == x && q[|q| - 1] == z;
  }

  /** Everything saturation adds to a set of nodes reachable from `x` is
      itself reachable from `x`. */
  lemma {:induction false} SaturateSound<T(!new)>(rel: set<(T, T)>, x: T, s: set<T>)
    requires s <= Targets(rel)
    requires forall y :: y in s ==> Reaches(rel, x, y)
    ensures forall y :: y in Saturate(rel, s) ==> Reaches(rel, x, y)
    decreases |Targets(rel) - s|
  {
    var next := s + Image(rel, s);
    if !(next <= s) {
      forall y | y in next
        ensures Reaches(rel, x, y)
      {
        if y !in s {
          var z :| z in s && (z, y) in rel;
          ReachesStep(rel, x, z, y);
        }
      }
      ProperSubsetSmaller(Targets(rel) - next, Targets(rel) - s);
      SaturateSound(rel, x, next);
    }
  }

  /** A set closed under `rel` that holds the second node of a walk holds
      every later node of it, in particular its end. */
  lemma {:induction false} ClosedHoldsWalk<T(!new)>(rel: set<(T, T)>, p: seq<T>, s: set<T>, k: nat)
    requires IsPath(rel, p) && Closed(rel, s)
    requires p[1] in s
    requires 1 <= k < |p|
    ensures p[k] in s
  {
    if k > 1 {
      ClosedHoldsWalk(rel, p, s, k - 1);
      assert (p[k - 1], p[k]) in rel;
      assert p[k] in Image(rel, s);
    }
  }

  /** The computed closure is exactly multi-hop reachability. */
  lemma ReachFromExact<T(!new)>(rel: set<(T, T)>, x: T, y: T)
    ensures y in ReachFrom(rel, x) <==> Reaches(rel, x, y)
  {
    var start := Image(rel, {x});
    forall z | z in start
      ensures Reaches(rel, x, z)
    {
      StepReaches(rel, x, z);
    }
    SaturateSound(rel, x, start);
    if Reaches(rel, x, y) {
      var p :| IsPath(rel, p) && p[0] == x && p[|p| - 1] == y;
      assert p[1] in start;
      ClosedHoldsWalk(rel, p, ReachFrom(rel, x), |p| - 1);
    }
  }

  /** Any closed set containing the first steps from `x` bounds the closure. */
  lemma ReachFromLeast<T(!new)>(rel: set<(T, T)>, x: T, s: set<T>)
    requires Image(rel, {x}) <= s && Closed(rel, s)
    ensures ReachFrom(rel, x) <= s
  {
    forall y | y in ReachFrom(rel, x)
      ensures y in s
    {
      ReachFromExact(rel, x, y);
      var p :| IsPath(rel, p) && p[0] == x && p[|p| - 1] == y;
      assert p[1] in Image(rel, {x});
      ClosedHoldsWalk(rel, p, s, |p| - 1);
    }
  }

  /** When the direct successors of `x` already form a closed set, they are
      everything `x` reaches. */
  lemma ReachFromDirect<T(!new)>(rel: set<(T, T)>, x: T, s: set<T>)
    requires Image(rel, {x}) == s && Closed(rel, s)
    ensures ReachFrom(rel, x) == s
  {
    ReachFromLeast(rel, x, s);
  }

  /** The walk `p` read backwards. */
  function Backwards<T(!new)>(p: seq<T>): (q: seq<T>)
    ensures |q| == |p|
    ensures forall i :: 0 <= i < |p| ==> q[i] == p[|p| - 1 - i]
  {
    seq(|p|, i requires 0 <= i < |p| => p[|p| - 1 - i])
  }

  /** Reading a walk backwards gives a walk of the reversed relation. */
  lemma BackwardsIsPath<T(!new)>(rel: set<(T, T)>, p: seq<T>)
    requires IsPath(rel, p)
    ensures IsPath(Reverse(rel), Backwards(p))
  {
    var q := Backwards(p);
    var n := |p|;
    forall i | 0 <= i < n - 1
      ensures (q[i], q[i + 1]) in Reverse(rel)
    {
      assert q[i] == p[n - 1 - i] && q[i + 1] == p[n - 2 - i];
      assert (p[n - 2 - i], p[n - 1 - i]) in rel;
    }
  }

  /** Reversing the relation reverses reachability, in both directions. */
  lemma ReachesReverse<T(!new)>(rel: set<(T, T)>, x: T, y: T)
    ensures Reaches(Reverse(rel), x, y) <==> Reaches(rel, y, x)
  {
    if Reaches(rel, y, x) {
      var p :| IsPath(rel, p) && p[0] == y && p[|p| - 1] == x;
      BackwardsIsPath(rel, p);
      var q := Backwards(p);
      assert q[0] == x && q[|q| - 1] == y;
    }
    if Reaches(Reverse(rel), x, y) {
      var q :| IsPath(Reverse(rel), q) && q[0] == x && q[|q| - 1] == y;
      BackwardsIsPath(Reverse(rel), q);
      assert Reverse(Reverse(rel)) == rel;
      var p := Backwards(q);
      assert p[0] == y && p[|p| - 1] == x;
    }
  }
}
