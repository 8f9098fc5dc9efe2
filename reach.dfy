/**
 * Walks and bounded reachability over an adjacency function: the reference
 * notions against which the breadth-first search is proved.
 */
module Reach {

  /** A non-empty path every step of which follows an edge. */
  predicate IsWalk<T>(adj: T -> set<T>, path: seq<T>) {
    path != [] && forall i :: 0 <= i < |path| - 1 ==> path[i + 1] in adj(path[i])
  }

  /** A walk from `a` to `b`. */
  predicate Connects<T>(adj: T -> set<T>, path: seq<T>, a: T, b: T) {
    IsWalk(adj, path) && path[0] == a && path[|path| - 1] == b
  }

  lemma WalkPrefix<T>(adj: T -> set<T>, path: seq<T>)
    requires IsWalk(adj, path) && |path| > 1
    ensures IsWalk(adj, path[..|path| - 1])
  {
    var init := path[..|path| - 1];
    forall i | 0 <= i < |init| - 1 ensures init[i + 1] in adj(init[i]) {
      assert init[i] == path[i] && init[i + 1] == path[i + 1];
    }
  }

  lemma WalkSnoc<T>(adj: T -> set<T>, path: seq<T>, v: T)
    requires IsWalk(adj, path) && v in adj(path[|path| - 1])
    ensures IsWalk(adj, path + [v])
  {
    var p := path + [v];
    forall i | 0 <= i < |p| - 1 ensures p[i + 1] in adj(p[i]) {
      if i < |path| - 1 {
        assert p[i] == path[i] && p[i + 1] == path[i + 1];
      }
    }
  }

  /** Everything one edge away from a member of `s`. */
  ghost function Step<T(!new)>(adj: T -> set<T>, s: set<T>): set<T> {
    set u, v | u in s && v in adj(u) :: v
  }

  /** Everything at most `k` edges from `home`. */
  ghost function Ball<T(!new)>(adj: T -> set<T>, home: T, k: nat): set<T> {
    if k == 0 then {home} else Ball(adj, home, k - 1) + Step(adj, Ball(adj, home, k - 1))
  }

  lemma {:induction false} BallMono<T(!new)>(adj: T -> set<T>, home: T, j: nat, k: nat)
    requires j <= k
    ensures Ball(adj, home, j) <= Ball(adj, home, k)
    decreases k - j
  {
    if j < k {
      BallMono(adj, home, j, k - 1);
    }
  }

  /** The end of a walk of n edges from `home` lies within n edges of `home`. */
  lemma {:induction false} WalkInBall<T(!new)>(adj: T -> set<T>, home: T, path: seq<T>)
    requires IsWalk(adj, path) && path[0] == home
    ensures path[|path| - 1] in Ball(adj, home, |path| - 1)
    decreases |path|
  {
    if |path| > 1 {
      var init := path[..|path| - 1];
      WalkPrefix(adj, path);
      WalkInBall(adj, home, init);
      assert path[|path| - 1] in adj(init[|init| - 1]);
      assert path[|path| - 1] in Step(adj, Ball(adj, home, |path| - 2));
    }
  }

  /** Everything within k edges of `home` is reached by a walk of at most k edges. */
  lemma {:induction false} BallHasWalk<T(!new)>(adj: T -> set<T>, home: T, k: nat, v: T)
    requires v in Ball(adj, home, k)
    ensures exists path :: Connects(adj, path, home, v) && |path| <= k + 1
  {
    if k == 0 {
      assert Connects(adj, [home], home, v);
    } else if v in Ball(adj, home, k - 1) {
      BallHasWalk(adj, home, k - 1, v);
    } else {
      var u :| u in Ball(adj, home, k - 1) && v in adj(u);
      BallHasWalk(adj, home, k - 1, u);
      var path :| Connects(adj, path, home, u) && |path| <= k;
      WalkSnoc(adj, path, v);
      assert Connects(adj, path + [v], home, v);
    }
  }

  /** `v` is exactly `d` edges from `home`: within d, and not within d - 1. */
  ghost predicate AtDistance<T(!new)>(adj: T -> set<T>, home: T, v: T, d: nat) {
    v in Ball(adj, home, d) && (d == 0 || v !in Ball(adj, home, d - 1))
  }

  lemma AtDistanceBelow<T(!new)>(adj: T -> set<T>, home: T, v: T, d: nat, k: nat)
    requires AtDistance(adj, home, v, d) && v in Ball(adj, home, k)
    ensures d <= k
  {
    if k < d {
      BallMono(adj, home, k, d - 1);
    }
  }

  /** A walk whose length matches the exact distance is no longer than any other walk between the same ends. */
  lemma ShortestWalk<T(!new)>(adj: T -> set<T>, home: T, v: T, found: seq<T>, d: nat)
    requires Connects(adj, found, home, v) && |found| == d + 1 && AtDistance(adj, home, v, d)
    ensures forall path :: Connects(adj, path, home, v) ==> |found| <= |path|
  {
    forall path | Connects(adj, path, home, v) ensures |found| <= |path| {
      WalkInBall(adj, home, path);
      AtDistanceBelow(adj, home, v, d, |path| - 1);
    }
  }

  /** Within k edges exactly when some walk of at most k edges gets there. */
  lemma BallIffWalk<T(!new)>(adj: T -> set<T>, home: T, k: nat, v: T)
    ensures v in Ball(adj, home, k) <==> exists path :: Connects(adj, path, home, v) && |path| <= k + 1
  {
    if v in Ball(adj, home, k) {
      BallHasWalk(adj, home, k, v);
    }
    if exists path :: Connects(adj, path, home, v) && |path| <= k + 1 {
      var path :| Connects(adj, path, home, v) && |path| <= k + 1;
      WalkInBall(adj, home, path);
      BallMono(adj, home, |path| - 1, k);
    }
  }
}
