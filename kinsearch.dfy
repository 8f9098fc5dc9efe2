/**
 * The breadth-first search of the relationship engine, over an arbitrary
 * labelled-link function: each id is visited once, the queue is processed
 * in order, paths of more than `MaxDepth` ids are not expanded, and ids
 * without a record are not expanded.
 */
module KinshipSearch {
  import opened Text
  import KinshipCode
  import Reach
  import opened Genealogy

  /** An edge out of a person: the id reached and the code letters it adds. */
  datatype Link = Link(dest: Id, letters: string)

  /** The label of the first link to `v`: the one whose `add` call enqueued `v`. */
  function FirstLabel(ls: seq<Link>, v: Id): string {
    if ls == [] then "" else if ls[0].dest == v then ls[0].letters else FirstLabel(ls[1..], v)
  }

  lemma {:induction false} FirstLabelAt(ls: seq<Link>, j: nat, v: Id)
    requires j < |ls| && ls[j].dest == v
    requires forall k :: 0 <= k < j ==> ls[k].dest != v
    ensures FirstLabel(ls, v) == ls[j].letters
  {
    if j > 0 {
      FirstLabelAt(ls[1..], j - 1, v);
    }
  }

  /** The ids a list of links leads to. */
  function Dests(ls: seq<Link>): set<Id> {
    set l | l in ls :: l.dest
  }

  /** The adjacency the search explores: the link ends of every id that has a record. */
  function SearchAdj(nb: Id -> seq<Link>, people: set<Id>): Id -> set<Id> {
    u => if u in people then Dests(nb(u)) else {}
  }

  /** A walk from `a` to `b` that the search can follow. */
  predicate Connects(nb: Id -> seq<Link>, people: set<Id>, path: seq<Id>, a: Id, b: Id) {
    Reach.Connects(SearchAdj(nb, people), path, a, b)
  }

  /** The raw code of a path: the edge labels along it, concatenated. */
  function RawCode(nb: Id -> seq<Link>, path: seq<Id>): string
    decreases |path|
  {
    if |path| <= 1 then "" else RawCode(nb, path[..|path| - 1]) + FirstLabel(nb(path[|path| - 2]), path[|path| - 1])
  }

  // ---------------------------------------------------------------------
  // getRelationshipCode

  /** The search stops expanding paths of more than this many people. */
  const MaxDepth: nat := 8

  /** A found relationship: the canonical code and the path of ids from home to target. */
  datatype CodeResult = CodeResult(code: string, path: seq<Id>)

  /** A queue entry: the person reached, the raw code so far and the path to them. */
  datatype Entry = Entry(id: Id, code: string, path: seq<Id>)

  function Level(e: Entry): int {
    |e.path| - 1
  }

  function QueueIds(q: seq<Entry>): set<Id> {
    set e | e in q :: e.id
  }

  /** Every id the search can ever visit: home and everything one link from someone with a record. */
  ghost function Universe(nb: Id -> seq<Link>, people: set<Id>, home: Id): set<Id> {
    {home} + set u, v | u in people && v in Dests(nb(u)) :: v
  }

  /** A queue entry carries a repetition-free walk from home to its id, and that walk's raw code. */
  ghost predicate EntryOk(nb: Id -> seq<Link>, people: set<Id>, home: Id, e: Entry, visited: set<Id>) {
    Connects(nb, people, e.path, home, e.id) && e.code == RawCode(nb, e.path) &&
    Distinct(e.path) && |e.path| <= MaxDepth + 1 &&
    forall x :: x in e.path ==> x in visited
  }

  /** Exact distances of the visited ids, recorded in `dist`. */
  ghost predicate Distances(adj: Id -> set<Id>, home: Id, visited: set<Id>, dist: map<Id, nat>) {
    visited == dist.Keys && forall v :: v in visited ==> Reach.AtDistance(adj, home, v, dist[v])
  }

  /** The queue is ordered by level, spans at most two levels, and holds each id once. */
  ghost predicate Layered(queue: seq<Entry>, dist: map<Id, nat>, lvl: nat) {
    (forall i :: 0 <= i < |queue| ==>
       queue[i].id in dist && dist[queue[i].id] == Level(queue[i]) && lvl <= Level(queue[i]) <= lvl + 1) &&
    (forall i, j :: 0 <= i < j < |queue| ==> Level(queue[i]) <= Level(queue[j]) && queue[i].id != queue[j].id)
  }

  /** Everyone visited and no longer queued (other than `skip`) has been expanded. */
  ghost predicate Expanded(adj: Id -> set<Id>, queue: seq<Entry>, visited: set<Id>, dist: map<Id, nat>, lvl: nat, skip: set<Id>) {
    visited <= dist.Keys &&
    forall v :: v in visited && v !in QueueIds(queue) && v !in skip ==>
      dist[v] <= lvl && (dist[v] < MaxDepth ==> adj(v) <= visited)
  }

  /** The state of the search between two dequeues (`lvl` is the level being expanded). */
  ghost predicate SearchState(nb: Id -> seq<Link>, people: set<Id>, home: Id, target: Id, queue: seq<Entry>, visited: set<Id>,
                              dist: map<Id, nat>, lvl: nat) {
    visited <= Universe(nb, people, home) &&
    Distances(SearchAdj(nb, people), home, visited, dist) &&
    (forall i :: 0 <= i < |queue| ==> EntryOk(nb, people, home, queue[i], visited)) &&
    Layered(queue, dist, lvl) &&
    lvl <= MaxDepth && Reach.Ball(SearchAdj(nb, people), home, lvl) <= visited &&
    Expanded(SearchAdj(nb, people), queue, visited, dist, lvl, {}) &&
    (target in visited ==> target in QueueIds(queue))
  }

  /**
   * When the front of the queue moves to the next level, every person at
   * the current level has been expanded, so the next ball is visited.
   */
  lemma NextLevel(adj: Id -> set<Id>, home: Id, queue: seq<Entry>, visited: set<Id>, dist: map<Id, nat>, lvl: nat)
    requires Distances(adj, home, visited, dist) && Layered(queue, dist, lvl)
    requires Expanded(adj, queue, visited, dist, lvl, {})
    requires lvl < MaxDepth && Reach.Ball(adj, home, lvl) <= visited
    requires queue != [] && Level(queue[0]) == lvl + 1
    ensures Layered(queue, dist, lvl + 1)
    ensures Expanded(adj, queue, visited, dist, lvl + 1, {})
    ensures Reach.Ball(adj, home, lvl + 1) <= visited
  {
    forall v | v in Reach.Ball(adj, home, lvl + 1) ensures v in visited {
      if v !in Reach.Ball(adj, home, lvl) {
        var u :| u in Reach.Ball(adj, home, lvl) && v in adj(u);
        Reach.AtDistanceBelow(adj, home, u, dist[u], lvl);
      }
    }
  }

  /**
   * With the queue empty every visited person has been expanded, so
   * everyone within `MaxDepth` links has been visited.
   */
  lemma {:induction false} ClosedBall(adj: Id -> set<Id>, home: Id, visited: set<Id>, dist: map<Id, nat>, lvl: nat, k: nat)
    requires Distances(adj, home, visited, dist) && Expanded(adj, [], visited, dist, lvl, {})
    requires Reach.Ball(adj, home, lvl) <= visited
    requires k <= MaxDepth
    ensures Reach.Ball(adj, home, k) <= visited
  {
    if k == 0 {
      Reach.BallMono(adj, home, 0, lvl);
    } else {
      ClosedBall(adj, home, visited, dist, lvl, k - 1);
      ClosedStep(adj, home, visited, dist, lvl, k - 1);
      assert Reach.Ball(adj, home, k) == Reach.Ball(adj, home, k - 1) + Reach.Step(adj, Reach.Ball(adj, home, k - 1));
    }
  }

  /** Once the queue is empty, a visited ball below `MaxDepth` has all its links visited. */
  lemma ClosedStep(adj: Id -> set<Id>, home: Id, visited: set<Id>, dist: map<Id, nat>, lvl: nat, k: nat)
    requires Distances(adj, home, visited, dist) && Expanded(adj, [], visited, dist, lvl, {})
    requires Reach.Ball(adj, home, k) <= visited && k < MaxDepth
    ensures Reach.Step(adj, Reach.Ball(adj, home, k)) <= visited
  {
    forall v | v in Reach.Step(adj, Reach.Ball(adj, home, k)) ensures v in visited {
      var u :| u in Reach.Ball(adj, home, k) && v in adj(u);
      Reach.AtDistanceBelow(adj, home, u, dist[u], k);
    }
  }

  /** When the search ends without the target visited, no walk of at most `MaxDepth` links reaches it. */
  lemma Unreachable(adj: Id -> set<Id>, home: Id, target: Id, visited: set<Id>, dist: map<Id, nat>, lvl: nat)
    requires Distances(adj, home, visited, dist) && Expanded(adj, [], visited, dist, lvl, {})
    requires Reach.Ball(adj, home, lvl) <= visited && target !in visited
    ensures forall path :: Reach.Connects(adj, path, home, target) ==> |path| > MaxDepth + 1
  {
    forall path | Reach.Connects(adj, path, home, target) ensures |path| > MaxDepth + 1 {
      if |path| <= MaxDepth + 1 {
        Reach.WalkInBall(adj, home, path);
        ClosedBall(adj, home, visited, dist, lvl, |path| - 1);
      }
    }
  }

  /** The raw code of a path extended by its first link to `v` gains that link's letters. */
  lemma ExtendCode(nb: Id -> seq<Link>, people: set<Id>, path: seq<Id>, ns: seq<Link>, j: nat)
    requires path != [] && ns == nb(path[|path| - 1]) && j < |ns|
    requires forall k :: 0 <= k < j ==> ns[k].dest != ns[j].dest
    ensures RawCode(nb, path + [ns[j].dest]) == RawCode(nb, path) + ns[j].letters
  {
    var p := path + [ns[j].dest];
    FirstLabelAt(ns, j, ns[j].dest);
    assert p[..|p| - 1] == path;
  }

  lemma ExtendDistinct(path: seq<Id>, v: Id, visited: set<Id>)
    requires Distinct(path) && (forall x :: x in path ==> x in visited) && v !in visited
    ensures Distinct(path + [v])
  {
    var p := path + [v];
    forall a, b | 0 <= a < b < |p| ensures p[a] != p[b] {
      if b == |p| - 1 {
        assert p[a] == path[a];
        assert path[a] in path;
      }
    }
  }

  /** A link out of someone with a record ends inside the universe. */
  lemma LinkInUniverse(nb: Id -> seq<Link>, people: set<Id>, home: Id, u: Id, v: Id)
    requires u in people && v in Dests(nb(u))
    ensures v in Universe(nb, people, home)
  {
  }

  /** Enqueuing the j-th link of the person being expanded gives a well-formed entry one level down. */
  lemma AddEntry(nb: Id -> seq<Link>, people: set<Id>, home: Id, curr: Entry, ns: seq<Link>, j: nat, visited: set<Id>, lvl: nat)
    requires curr.id in people && ns == nb(curr.id) && j < |ns|
    requires EntryOk(nb, people, home, curr, visited) && |curr.path| <= MaxDepth && Level(curr) == lvl
    requires Reach.AtDistance(SearchAdj(nb, people), home, curr.id, lvl)
    requires Reach.Ball(SearchAdj(nb, people), home, lvl) <= visited
    requires ns[j].dest !in visited
    requires forall k :: 0 <= k < j ==> ns[k].dest in visited
    ensures EntryOk(nb, people, home, Entry(ns[j].dest, curr.code + ns[j].letters, curr.path + [ns[j].dest]), visited + {ns[j].dest})
    ensures Reach.AtDistance(SearchAdj(nb, people), home, ns[j].dest, lvl + 1)
  {
    var v := ns[j].dest;
    var adj := SearchAdj(nb, people);
    assert ns[j] in ns;
    assert v in adj(curr.id);
    ExtendCode(nb, people, curr.path, ns, j);
    Reach.WalkSnoc(adj, curr.path, v);
    ExtendDistinct(curr.path, v, visited);
    assert v in Reach.Step(adj, Reach.Ball(adj, home, lvl));
  }

  /** Entries keep their invariant as the visited set grows. */
  lemma EntriesGrow(nb: Id -> seq<Link>, people: set<Id>, home: Id, queue: seq<Entry>, visited: set<Id>, v: Id)
    requires forall i :: 0 <= i < |queue| ==> EntryOk(nb, people, home, queue[i], visited)
    ensures forall i :: 0 <= i < |queue| ==> EntryOk(nb, people, home, queue[i], visited + {v})
  {
  }

  /**
   * The state just after `curr` has been dequeued and before its links are
   * added: `curr` is visited, off the queue, at the current level, and the
   * only visited person not yet expanded.
   */
  ghost predicate Popped(nb: Id -> seq<Link>, people: set<Id>, home: Id, target: Id, curr: Entry, queue: seq<Entry>, visited: set<Id>,
                         dist: map<Id, nat>, lvl: nat) {
    curr.id in visited && curr.id !in QueueIds(queue) && curr.id in dist && dist[curr.id] == lvl == Level(curr) &&
    curr.id != target && EntryOk(nb, people, home, curr, visited) &&
    visited <= Universe(nb, people, home) &&
    Distances(SearchAdj(nb, people), home, visited, dist) &&
    (forall i :: 0 <= i < |queue| ==> EntryOk(nb, people, home, queue[i], visited)) &&
    Layered(queue, dist, lvl) &&
    lvl <= MaxDepth && Reach.Ball(SearchAdj(nb, people), home, lvl) <= visited &&
    Expanded(SearchAdj(nb, people), queue, visited, dist, lvl, {curr.id}) &&
    (target in visited ==> target in QueueIds(queue))
  }

  /** The search starts with home alone, visited and queued, at level 0. */
  lemma Start(nb: Id -> seq<Link>, people: set<Id>, home: Id, target: Id)
    requires home != target
    ensures SearchState(nb, people, home, target, [Entry(home, "", [home])], {home}, map[home := 0], 0)
  {
    var q := [Entry(home, "", [home])];
    assert Reach.Connects(SearchAdj(nb, people), [home], home, home);
    assert EntryOk(nb, people, home, q[0], {home});
    assert QueueIds(q) == {home};
  }

  /** Dequeuing an entry at the current level that is not the target. */
  lemma Pop(nb: Id -> seq<Link>, people: set<Id>, home: Id, target: Id, queue: seq<Entry>, visited: set<Id>, dist: map<Id, nat>, lvl: nat)
    requires SearchState(nb, people, home, target, queue, visited, dist, lvl)
    requires queue != [] && Level(queue[0]) == lvl && queue[0].id != target
    ensures Popped(nb, people, home, target, queue[0], queue[1..], visited, dist, lvl)
  {
    LayeredTail(queue, dist, lvl);
    var q := queue[1..];
    assert forall i :: 0 <= i < |q| ==> q[i] == queue[i + 1];
  }

  /** Dequeuing keeps the rest of the queue layered and leaves the dequeued id unqueued. */
  lemma LayeredTail(queue: seq<Entry>, dist: map<Id, nat>, lvl: nat)
    requires Layered(queue, dist, lvl) && queue != []
    ensures Layered(queue[1..], dist, lvl)
    ensures QueueIds(queue) == QueueIds(queue[1..]) + {queue[0].id}
    ensures queue[0].id !in QueueIds(queue[1..])
  {
    var q := queue[1..];
    assert queue == [queue[0]] + q;
    assert QueueIds(queue) == QueueIds(q) + {queue[0].id};
    assert queue[0].id !in QueueIds(q) by {
      forall i | 0 <= i < |q| ensures q[i].id != queue[0].id {
        assert q[i] == queue[i + 1];
      }
    }
    assert Layered(q, dist, lvl) by {
      forall i, j | 0 <= i < j < |q| ensures Level(q[i]) <= Level(q[j]) && q[i].id != q[j].id {
        assert q[i] == queue[i + 1] && q[j] == queue[j + 1];
      }
    }
  }

  /** An entry that is too deep, or whose person has no record, is dropped without expansion. */
  lemma Skip(nb: Id -> seq<Link>, people: set<Id>, home: Id, target: Id, curr: Entry, queue: seq<Entry>, visited: set<Id>, dist: map<Id, nat>, lvl: nat)
    requires Popped(nb, people, home, target, curr, queue, visited, dist, lvl)
    requires |curr.path| > MaxDepth || curr.id !in people
    ensures SearchState(nb, people, home, target, queue, visited, dist, lvl)
  {
    assert curr.id !in people ==> SearchAdj(nb, people)(curr.id) == {};
  }

  /** One `add` call that enqueues a new person keeps the popped-state invariant. */
  lemma AddStep(nb: Id -> seq<Link>, people: set<Id>, home: Id, target: Id, curr: Entry, ns: seq<Link>, j: nat,
                queue: seq<Entry>, visited: set<Id>, dist: map<Id, nat>, lvl: nat)
    requires curr.id in people && |curr.path| <= MaxDepth && ns == nb(curr.id) && j < |ns|
    requires Popped(nb, people, home, target, curr, queue, visited, dist, lvl)
    requires ns[j].dest !in visited
    requires Dests(ns[..j]) <= visited
    ensures Popped(nb, people, home, target, curr,
                   queue + [Entry(ns[j].dest, curr.code + ns[j].letters, curr.path + [ns[j].dest])],
                   visited + {ns[j].dest}, dist[ns[j].dest := lvl + 1], lvl)
    ensures |Universe(nb, people, home) - (visited + {ns[j].dest})| + 1 == |Universe(nb, people, home) - visited|
  {
    var v := ns[j].dest;
    var e := Entry(v, curr.code + ns[j].letters, curr.path + [v]);
    assert forall k :: 0 <= k < j ==> ns[k].dest in visited by {
      forall k | 0 <= k < j ensures ns[k].dest in visited {
        assert ns[..j][k] == ns[k];
      }
    }
    AddEntry(nb, people, home, curr, ns, j, visited, lvl);
    assert ns[j] in ns;
    LinkInUniverse(nb, people, home, curr.id, v);
    GrowUniverse(Universe(nb, people, home), visited, v);
    GrowEntries(nb, people, home, queue, visited, e);
    QueueIdsSnoc(queue, e);
    GrowDistances(SearchAdj(nb, people), home, visited, dist, v, lvl + 1);
    GrowLayered(queue, dist, lvl, e);
    GrowExpanded(SearchAdj(nb, people), queue, visited, dist, lvl, {curr.id}, e, lvl + 1);
  }

  lemma GrowUniverse(U: set<Id>, visited: set<Id>, v: Id)
    requires visited <= U && v in U && v !in visited
    ensures visited + {v} <= U && |U - (visited + {v})| + 1 == |U - visited|
  {
    assert (U - visited) == (U - (visited + {v})) + {v};
  }

  lemma GrowEntries(nb: Id -> seq<Link>, people: set<Id>, home: Id, queue: seq<Entry>, visited: set<Id>, e: Entry)
    requires forall i :: 0 <= i < |queue| ==> EntryOk(nb, people, home, queue[i], visited)
    requires EntryOk(nb, people, home, e, visited + {e.id})
    ensures forall i :: 0 <= i < |queue + [e]| ==> EntryOk(nb, people, home, (queue + [e])[i], visited + {e.id})
  {
    EntriesGrow(nb, people, home, queue, visited, e.id);
  }

  lemma DestsPrefix(ns: seq<Link>, j: nat, before: set<Id>, after: set<Id>)
    requires j < |ns| && Dests(ns[..j]) <= before && before <= after && ns[j].dest in after
    ensures Dests(ns[..j + 1]) <= after
  {
    assert ns[..j + 1] == ns[..j] + [ns[j]];
  }

  lemma QueueIdsSnoc(queue: seq<Entry>, e: Entry)
    ensures QueueIds(queue + [e]) == QueueIds(queue) + {e.id}
  {
  }

  lemma GrowDistances(adj: Id -> set<Id>, home: Id, visited: set<Id>, dist: map<Id, nat>, v: Id, d: nat)
    requires Distances(adj, home, visited, dist) && Reach.AtDistance(adj, home, v, d)
    ensures Distances(adj, home, visited + {v}, dist[v := d])
  {
  }

  lemma GrowLayered(queue: seq<Entry>, dist: map<Id, nat>, lvl: nat, e: Entry)
    requires Layered(queue, dist, lvl) && e.id !in dist && Level(e) == lvl + 1
    ensures Layered(queue + [e], dist[e.id := lvl + 1], lvl)
  {
    var q := queue + [e];
    assert forall i :: 0 <= i < |queue| ==> q[i] == queue[i];
  }

  lemma GrowExpanded(adj: Id -> set<Id>, queue: seq<Entry>, visited: set<Id>, dist: map<Id, nat>, lvl: nat,
                     skip: set<Id>, e: Entry, d: nat)
    requires Expanded(adj, queue, visited, dist, lvl, skip) && e.id !in visited
    ensures Expanded(adj, queue + [e], visited + {e.id}, dist[e.id := d], lvl, skip)
  {
    QueueIdsSnoc(queue, e);
  }

  /**
   * The `add` calls of one expansion: every link of `curr` whose end is not
   * yet visited is marked visited and enqueued one level down, carrying the
   * extended path and code.
   */
  method Expand(nb: Id -> seq<Link>, people: set<Id>, home: Id, target: Id, curr: Entry, queue0: seq<Entry>, visited0: set<Id>,
                ghost dist0: map<Id, nat>, ghost lvl: nat)
    returns (queue: seq<Entry>, visited: set<Id>, ghost dist: map<Id, nat>)
    requires curr.id in people && |curr.path| <= MaxDepth
    requires Popped(nb, people, home, target, curr, queue0, visited0, dist0, lvl)
    ensures SearchState(nb, people, home, target, queue, visited, dist, lvl)
    ensures 2 * |Universe(nb, people, home) - visited| + |queue| <= 2 * |Universe(nb, people, home) - visited0| + |queue0|
  {
    ghost var U := Universe(nb, people, home);
    queue, visited, dist := queue0, visited0, dist0;
    var ns := nb(curr.id);
    var j := 0;
    while j < |ns|
      invariant 0 <= j <= |ns|
      invariant Popped(nb, people, home, target, curr, queue, visited, dist, lvl)
      invariant Dests(ns[..j]) <= visited
      invariant 2 * |U - visited| + |queue| <= 2 * |U - visited0| + |queue0|
    {
      var next := ns[j];
      ghost var seen := visited;
      if next.dest !in visited {
        AddStep(nb, people, home, target, curr, ns, j, queue, visited, dist, lvl);
        visited := visited + {next.dest};
        dist := dist[next.dest := lvl + 1];
        queue := queue + [Entry(next.dest, curr.code + next.letters, curr.path + [next.dest])];
      }
      DestsPrefix(ns, j, seen, visited);
      j := j + 1;
    }
    Finish(nb, people, home, target, curr, ns, queue, visited, dist, lvl);
  }

  /** After the last `add`, every link of `curr` is visited, so `curr` counts as expanded. */
  lemma Finish(nb: Id -> seq<Link>, people: set<Id>, home: Id, target: Id, curr: Entry, ns: seq<Link>,
               queue: seq<Entry>, visited: set<Id>, dist: map<Id, nat>, lvl: nat)
    requires ns == nb(curr.id)
    requires Popped(nb, people, home, target, curr, queue, visited, dist, lvl)
    requires Dests(ns[..|ns|]) <= visited
    ensures SearchState(nb, people, home, target, queue, visited, dist, lvl)
  {
    assert ns[..|ns|] == ns;
  }

  /** The front of the queue has moved to the next level. */
  lemma Advance(nb: Id -> seq<Link>, people: set<Id>, home: Id, target: Id, queue: seq<Entry>, visited: set<Id>,
                dist: map<Id, nat>, lvl: nat)
    requires SearchState(nb, people, home, target, queue, visited, dist, lvl)
    requires queue != [] && Level(queue[0]) == lvl + 1
    ensures SearchState(nb, people, home, target, queue, visited, dist, lvl + 1)
  {
    assert EntryOk(nb, people, home, queue[0], visited);
    NextLevel(SearchAdj(nb, people), home, queue, visited, dist, lvl);
  }

  /** The target at the front of the queue carries a shortest walk. */
  lemma Found(nb: Id -> seq<Link>, people: set<Id>, home: Id, target: Id, queue: seq<Entry>, visited: set<Id>,
              dist: map<Id, nat>, lvl: nat)
    requires SearchState(nb, people, home, target, queue, visited, dist, lvl)
    requires queue != [] && queue[0].id == target
    ensures Connects(nb, people, queue[0].path, home, target) && Distinct(queue[0].path)
    ensures |queue[0].path| <= MaxDepth + 1 && queue[0].code == RawCode(nb, queue[0].path)
    ensures forall path :: Connects(nb, people, path, home, target) ==> |queue[0].path| <= |path|
  {
    assert EntryOk(nb, people, home, queue[0], visited);
    Reach.ShortestWalk(SearchAdj(nb, people), home, target, queue[0].path, dist[target]);
  }

  /**
   * Taking the front entry: the level moves on when the front is one level
   * down; the target carries a shortest walk, anyone else leaves the popped
   * state behind.
   */
  lemma Dequeue(nb: Id -> seq<Link>, people: set<Id>, home: Id, target: Id, queue: seq<Entry>, visited: set<Id>,
                dist: map<Id, nat>, lvl: nat) returns (lvl': nat)
    requires SearchState(nb, people, home, target, queue, visited, dist, lvl)
    requires queue != []
    ensures queue[0].id == target ==>
      Connects(nb, people, queue[0].path, home, target) && Distinct(queue[0].path) &&
      |queue[0].path| <= MaxDepth + 1 && queue[0].code == RawCode(nb, queue[0].path) &&
      forall path :: Connects(nb, people, path, home, target) ==> |queue[0].path| <= |path|
    ensures queue[0].id != target ==> Popped(nb, people, home, target, queue[0], queue[1..], visited, dist, lvl')
  {
    lvl' := lvl;
    if Level(queue[0]) == lvl + 1 {
      Advance(nb, people, home, target, queue, visited, dist, lvl);
      lvl' := lvl + 1;
    }
    if queue[0].id == target {
      Found(nb, people, home, target, queue, visited, dist, lvl');
    } else {
      Pop(nb, people, home, target, queue, visited, dist, lvl');
    }
  }

  /** The queue ran empty with the target never visited. */
  lemma Exhausted(nb: Id -> seq<Link>, people: set<Id>, home: Id, target: Id, visited: set<Id>,
                  dist: map<Id, nat>, lvl: nat)
    requires SearchState(nb, people, home, target, [], visited, dist, lvl)
    ensures forall path :: Connects(nb, people, path, home, target) ==> |path| > MaxDepth + 1
  {
    Unreachable(SearchAdj(nb, people), home, target, visited, dist, lvl);
  }

  /**
   * `getRelationshipCode(homeId, targetId)`: breadth-first search over the
   * labelled links, visiting each id once, not expanding paths longer than
   * `MaxDepth` people; the code of the first path that reaches the target is
   * normalised.
   */
  method ShortestCode(nb: Id -> seq<Link>, people: set<Id>, home: Id, target: Id) returns (r: Option<CodeResult>)
    ensures home == "" || target == "" ==> r == None
    ensures home != "" && home == target ==> r == Some(CodeResult("SELF", [home]))
    ensures home != "" && target != "" && home != target ==>
      (r.Some? <==> exists path :: Connects(nb, people, path, home, target) && |path| <= MaxDepth + 1)
    ensures home != target && r.Some? ==>
      Connects(nb, people, r.value.path, home, target) && Distinct(r.value.path) &&
      |r.value.path| <= MaxDepth + 1 &&
      r.value.code == KinshipCode.NormalForm(RawCode(nb, r.value.path)) &&
      forall path :: Connects(nb, people, path, home, target) ==> |r.value.path| <= |path|
  {
    if home == "" || target == "" {
      return None;
    }
    if home == target {
      return Some(CodeResult("SELF", [home]));
    }
    var queue := [Entry(home, "", [home])];
    var visited := {home};
    ghost var dist: map<Id, nat> := map[home := 0];
    ghost var lvl: nat := 0;
    ghost var U := Universe(nb, people, home);
    Start(nb, people, home, target);
    while queue != []
      invariant SearchState(nb, people, home, target, queue, visited, dist, lvl)
      decreases 2 * |U - visited| + |queue|
    {
      var curr := queue[0];
      lvl := Dequeue(nb, people, home, target, queue, visited, dist, lvl);
      queue := queue[1..];
      if curr.id == target {
        var code := KinshipCode.NormalizeCode(curr.code);
        return Some(CodeResult(code, curr.path));
      }
      if |curr.path| > MaxDepth || curr.id !in people {
        Skip(nb, people, home, target, curr, queue, visited, dist, lvl);
        continue;
      }
      queue, visited, dist := Expand(nb, people, home, target, curr, queue, visited, dist, lvl);
    }
    Exhausted(nb, people, home, target, visited, dist, lvl);
    r := None;
  }
}
