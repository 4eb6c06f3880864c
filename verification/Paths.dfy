/** Finite directed relations: paths, cycles, reachability and ranks. The
    document graph, the feature navigator and the command layout all share it. */
module Paths {
  import opened Common

  type Arcs = set<(nat, nat)>

  ghost predicate IsPath(arcs: Arcs, p: seq<nat>) {
    |p| > 0 && forall i :: 0 <= i < |p| - 1 ==> (p[i], p[i + 1]) in arcs
  }

  ghost predicate PathBetween(arcs: Arcs, p: seq<nat>, a: nat, b: nat) {
    IsPath(arcs, p) && p[0] == a && p[|p| - 1] == b
  }

  /** `b` can be reached from `a` along zero or more arcs. */
  ghost predicate Reaches(arcs: Arcs, a: nat, b: nat) {
    exists p :: PathBetween(arcs, p, a, b)
  }

  /** A closed walk with at least one arc. */
  ghost predicate IsCycle(arcs: Arcs, p: seq<nat>) {
    IsPath(arcs, p) && |p| > 1 && p[0] == p[|p| - 1]
  }

  ghost predicate Acyclic(arcs: Arcs) {
    forall p :: !IsCycle(arcs, p)
  }

  lemma ReachesSelf(arcs: Arcs, a: nat)
    ensures Reaches(arcs, a, a)
  {
    assert PathBetween(arcs, [a], a, a);
  }

  lemma ReachesStep(arcs: Arcs, a: nat, b: nat, c: nat)
    requires Reaches(arcs, a, b) && (b, c) in arcs
    ensures Reaches(arcs, a, c)
  {
    var p :| PathBetween(arcs, p, a, b);
    assert PathBetween(arcs, p + [c], a, c);
  }

  lemma JoinPaths(arcs: Arcs, p: seq<nat>, q: seq<nat>)
    requires IsPath(arcs, p) && IsPath(arcs, q) && p[|p| - 1] == q[0]
    ensures IsPath(arcs, p + q[1..])
    ensures (p + q[1..])[|p + q[1..]| - 1] == q[|q| - 1]
  {
    var r := p + q[1..];
    forall i | 0 <= i < |r| - 1 ensures (r[i], r[i + 1]) in arcs {
      if i >= |p| - 1 {
        assert r[i] == q[i + 1 - |p|] && r[i + 1] == q[i + 2 - |p|];
      }
    }
  }

  lemma ReachesTransitive(arcs: Arcs, a: nat, b: nat, c: nat)
    requires Reaches(arcs, a, b) && Reaches(arcs, b, c)
    ensures Reaches(arcs, a, c)
  {
    var p :| PathBetween(arcs, p, a, b);
    var q :| PathBetween(arcs, q, b, c);
    JoinPaths(arcs, p, q);
    assert PathBetween(arcs, p + q[1..], a, c);
  }

  /** A set closed under the arcs keeps everything reachable from its members. */
  lemma {:induction false} ClosedKeepsPath(arcs: Arcs, s: set<nat>, p: seq<nat>)
    requires forall a, b :: (a, b) in arcs && a in s ==> b in s
    requires IsPath(arcs, p) && p[0] in s
    ensures p[|p| - 1] in s
    decreases |p|
  {
    if |p| > 1 {
      assert (p[0], p[1]) in arcs;
      ClosedKeepsPath(arcs, s, p[1..]);
    }
  }

  /** `s` and everything one arc away from it. */
  function Grow(arcs: Arcs, s: set<nat>): set<nat> {
    s + set a | a in arcs && a.0 in s :: a.1
  }

  function Outside(arcs: Arcs, s: set<nat>): Arcs {
    set a | a in arcs && a.1 !in s
  }

  lemma GrowShrinksOutside(arcs: Arcs, s: set<nat>)
    requires Grow(arcs, s) != s
    ensures Outside(arcs, Grow(arcs, s)) < Outside(arcs, s)
  {
    var x :| x in Grow(arcs, s) && x !in s;
    var a :| a in arcs && a.0 in s && a.1 == x;
    assert a in Outside(arcs, s) && a !in Outside(arcs, Grow(arcs, s));
  }

  /** Everything reachable from `s`, grown one layer of arcs at a time. */
  function ReachSet(arcs: Arcs, s: set<nat>): set<nat>
    decreases Outside(arcs, s)
  {
    if Grow(arcs, s) == s then s
    else
      GrowShrinksOutside(arcs, s);
      ReachSet(arcs, Grow(arcs, s))
  }

  /** The computed closure is exactly reachability. */
  lemma {:induction false} ReachSetIsReachability(arcs: Arcs, s: set<nat>, b: nat)
    ensures b in ReachSet(arcs, s) <==> exists a :: a in s && Reaches(arcs, a, b)
    decreases Outside(arcs, s)
  {
    var next := Grow(arcs, s);
    if next == s {
      if b in s {
        ReachesSelf(arcs, b);
      }
      if a :| a in s && Reaches(arcs, a, b) {
        var p :| PathBetween(arcs, p, a, b);
        forall x, y | (x, y) in arcs && x in s ensures y in s {
          assert y in next;
        }
        ClosedKeepsPath(arcs, s, p);
      }
    } else {
      GrowShrinksOutside(arcs, s);
      ReachSetIsReachability(arcs, next, b);
      if a :| a in next && Reaches(arcs, a, b) {
        if a !in s {
          var arc :| arc in arcs && arc.0 in s && arc.1 == a;
          ReachesSelf(arcs, arc.0);
          ReachesStep(arcs, arc.0, arc.0, a);
          ReachesTransitive(arcs, arc.0, a, b);
        }
      }
      if a :| a in s && Reaches(arcs, a, b) {
        assert a in next;
      }
    }
  }

  /** A path that may use one extra arc `from -> to` either avoids it or runs
      through it, and then ends with a stretch that starts at `to`. */
  lemma {:induction false} SplitAtArc(arcs: Arcs, from: nat, to: nat, p: seq<nat>)
    requires IsPath(arcs + {(from, to)}, p)
    ensures IsPath(arcs, p) || (Reaches(arcs, p[0], from) && Reaches(arcs, to, p[|p| - 1]))
    decreases |p|
  {
    if |p| > 1 {
      var q, b := p[..|p| - 1], p[|p| - 1];
      var c := q[|q| - 1];
      forall i | 0 <= i < |q| - 1 ensures (q[i], q[i + 1]) in arcs + {(from, to)} {
        assert (p[i], p[i + 1]) in arcs + {(from, to)};
      }
      SplitAtArc(arcs, from, to, q);
      assert (p[|p| - 2], p[|p| - 1]) in arcs + {(from, to)};
      if (c, b) in arcs {
        if !IsPath(arcs, q) {
          ReachesStep(arcs, to, c, b);
        }
      } else {
        ReachesSelf(arcs, to);
        if IsPath(arcs, q) {
          assert PathBetween(arcs, q, p[0], from);
        }
      }
    }
  }

  /** Adding an arc keeps a relation acyclic when its head does not already
      reach its tail. */
  lemma AddArcKeepsAcyclic(arcs: Arcs, from: nat, to: nat)
    requires Acyclic(arcs) && !Reaches(arcs, to, from)
    ensures Acyclic(arcs + {(from, to)})
  {
    forall p | IsPath(arcs + {(from, to)}, p) && !IsPath(arcs, p)
      ensures !IsCycle(arcs + {(from, to)}, p)
    {
      SplitAtArc(arcs, from, to, p);
      if p[0] == p[|p| - 1] {
        ReachesTransitive(arcs, to, p[0], from);
        assert false;
      }
    }
    assert forall p :: IsPath(arcs, p) && IsCycle(arcs + {(from, to)}, p) ==> IsCycle(arcs, p);
  }

  lemma FewerArcsKeepAcyclic(arcs: Arcs, fewer: Arcs)
    requires Acyclic(arcs) && fewer <= arcs
    ensures Acyclic(fewer)
  {
    assert forall p :: IsCycle(fewer, p) ==> IsCycle(arcs, p);
  }

  /** A path longer than the node set runs through a cycle that reaches its end. */
  lemma LongPathHasCycle(arcs: Arcs, nodes: set<nat>, p: seq<nat>) returns (c: seq<nat>)
    requires IsPath(arcs, p) && |p| > |nodes|
    requires forall x :: x in p ==> x in nodes
    ensures IsCycle(arcs, c) && Reaches(arcs, c[0], p[|p| - 1])
  {
    Pigeonhole(p, nodes);
    var i, j :| 0 <= i < j < |p| && p[i] == p[j];
    c := p[i..j + 1];
    assert PathBetween(arcs, p[j..], c[0], p[|p| - 1]);
  }

  /** The longest path that ends at `id` has `d` arcs. */
  ghost predicate LongestPath(arcs: Arcs, id: nat, d: nat) {
    && (exists p :: IsPath(arcs, p) && p[|p| - 1] == id && |p| == d + 1)
    && (forall p :: IsPath(arcs, p) && p[|p| - 1] == id ==> |p| <= d + 1)
  }
}
