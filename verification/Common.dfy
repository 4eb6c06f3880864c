/** Option and Result, the least element of a set of ids, and the pigeonhole
    principle that bounds simple paths. */
module Common {

  datatype Option<+T> = None | Some(value: T)

  datatype Result<+T, +E> = Ok(value: T) | Err(error: E)

  /** A sequence is its last element behind the rest. */
  lemma LastOf<T>(s: seq<T>)
    requires s != []
    ensures s[..|s| - 1] + [s[|s| - 1]] == s
  {
  }

  lemma {:induction false} MinExists(s: set<nat>, x: nat)
    requires x in s
    ensures exists m :: m in s && forall k :: k in s ==> m <= k
    decreases x
  {
    if y :| y in s && y < x {
      MinExists(s, y);
    } else {
      assert forall k :: k in s ==> x <= k;
    }
  }

  /** The element a `BTreeSet` yields first. */
  function MinOf(s: set<nat>): (m: nat)
    requires s != {}
    ensures m in s && forall k :: k in s ==> m <= k
  {
    assert exists m :: m in s && forall k :: k in s ==> m <= k by {
      var x :| x in s;
      MinExists(s, x);
    }
    var m :| m in s && forall k :: k in s ==> m <= k;
    m
  }

  lemma {:induction false} Pigeonhole<T>(p: seq<T>, s: set<T>)
    requires forall x :: x in p ==> x in s
    requires |p| > |s|
    ensures exists i, j :: 0 <= i < j < |p| && p[i] == p[j]
    decreases |p|
  {
    if p[0] in p[1..] {
      var j :| 0 <= j < |p| - 1 && p[1..][j] == p[0];
      assert p[0] == p[j + 1];
    } else {
      forall x | x in p[1..] ensures x in s - {p[0]} {
        assert x in p;
      }
      assert p[0] in s;
      Pigeonhole(p[1..], s - {p[0]});
      var i, j :| 0 <= i < j < |p| - 1 && p[1..][i] == p[1..][j];
      assert p[i + 1] == p[j + 1];
    }
  }
}
