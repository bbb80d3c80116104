/** Degrees of separation: co-star adjacency between people and a breadth-first search for
    the shortest chain of (movie, person) hops from one person to another. */
module Degrees {
  import opened Wrappers

  type PersonId = string
  type MovieId = string

  /** One hop of a chain: the movie shared with the previous person, and the next person. */
  type Hop = (MovieId, PersonId)

  /** The two loaded tables: the movies of each person and the stars of each movie. Names,
      birth years and titles play no part in the search and are not kept. */
  datatype Db = Db(people: map<PersonId, set<MovieId>>, movies: map<MovieId, set<PersonId>>)

  /** Every movie a person starred in is a known movie and every star is a known person (a
      missing one would make the lookups raise `KeyError`). */
  predicate Valid(db: Db)
  {
    && (forall p, m :: p in db.people && m in db.people[p] ==> m in db.movies)
    && (forall m, q :: m in db.movies && q in db.movies[m] ==> q in db.people)
  }

  /* ---------------------------------------------------------------------- */
  /* neighbors_for_person                                                    */

  /** The pairs `(m, q)` where `m` is a movie of `p` and `q` a star of `m` (`p` included). */
  function Neighbors(db: Db, p: PersonId): set<Hop>
    requires Valid(db) && p in db.people
  {
    set m, q | m in db.people[p] && q in db.movies[m] :: (m, q)
  }

  /** Every neighbour of a known person is a known person. */
  lemma NeighborsKnown(db: Db, p: PersonId, h: Hop)
    requires Valid(db) && p in db.people && h in Neighbors(db, p)
    ensures h.0 in db.people[p] && h.0 in db.movies && h.1 in db.movies[h.0]
    ensures h.1 in db.people
  {
  }

  /** Builds the neighbour set movie by movie, star by star. */
  method NeighborsForPerson(db: Db, personId: PersonId) returns (neighbors: set<Hop>)
    requires Valid(db) && personId in db.people
    ensures neighbors == Neighbors(db, personId)
  {
    var movieIds := db.people[personId];
    neighbors := {};
    var movieRest := movieIds;
    while movieRest != {}
      invariant movieRest <= movieIds
      invariant forall h :: h in neighbors <==> h.0 in movieIds - movieRest && h.1 in db.movies[h.0]
    {
      var movieId :| movieId in movieRest;
      var stars := db.movies[movieId];
      var starRest := stars;
      while starRest != {}
        invariant starRest <= stars
        invariant forall h :: h in neighbors <==>
          (h.0 in movieIds - movieRest && h.1 in db.movies[h.0]) || (h.0 == movieId && h.1 in stars - starRest)
      {
        var star :| star in starRest;
        neighbors := neighbors + {(movieId, star)};
        starRest := starRest - {star};
      }
      movieRest := movieRest - {movieId};
    }
    assert forall h :: h in neighbors <==> h in Neighbors(db, personId);
  }

  /* ---------------------------------------------------------------------- */
  /* Chains and reachability                                                 */

  /** The person a chain starting at `s` ends at. */
  function Last(s: PersonId, path: seq<Hop>): PersonId
  {
    if path == [] then s else path[|path| - 1].1
  }

  /** `path` is a chain from `s`: each hop's person co-starred in the hop's movie with the
      person before it. */
  ghost predicate IsChain(db: Db, s: PersonId, path: seq<Hop>)
    requires Valid(db)
    decreases |path|
  {
    if path == [] then true
    else
      var prefix := path[..|path| - 1];
      && IsChain(db, s, prefix)
      && Last(s, prefix) in db.people
      && path[|path| - 1] in Neighbors(db, Last(s, prefix))
  }

  /** The people one hop away from some known person of `w`. */
  ghost function Step(db: Db, w: set<PersonId>): set<PersonId>
    requires Valid(db)
  {
    set p, m, q | p in w && p in db.people && m in db.people[p] && q in db.movies[m] :: q
  }

  /** The people reachable from `s` in at most `k` hops. */
  ghost function Within(db: Db, s: PersonId, k: nat): set<PersonId>
    requires Valid(db)
  {
    if k == 0 then {s} else Within(db, s, k - 1) + Step(db, Within(db, s, k - 1))
  }

  /** The people reachable from `s` in fewer than `d` hops. */
  ghost function Closer(db: Db, s: PersonId, d: nat): set<PersonId>
    requires Valid(db)
  {
    if d == 0 then {} else Within(db, s, d - 1)
  }

  lemma StepMember(db: Db, w: set<PersonId>, p: PersonId, h: Hop)
    requires Valid(db) && p in w && p in db.people && h in Neighbors(db, p)
    ensures h.1 in Step(db, w)
  {
    assert h.0 in db.people[p] && h.1 in db.movies[h.0];
  }

  /** Taking more hops reaches at least as many people. */
  lemma {:induction false} WithinMonotone(db: Db, s: PersonId, k: nat, l: nat)
    requires Valid(db) && k <= l
    ensures Within(db, s, k) <= Within(db, s, l)
    decreases l - k
  {
    if k < l {
      WithinMonotone(db, s, k, l - 1);
    }
  }

  /** A chain of `n` hops ends at a person reachable within `n` hops. */
  lemma {:induction false} ChainWithin(db: Db, s: PersonId, path: seq<Hop>)
    requires Valid(db) && IsChain(db, s, path)
    ensures Last(s, path) in Within(db, s, |path|)
    decreases |path|
  {
    if path != [] {
      var prefix := path[..|path| - 1];
      ChainWithin(db, s, prefix);
      StepMember(db, Within(db, s, |prefix|), Last(s, prefix), path[|path| - 1]);
    }
  }

  /** A set holding `s` that is closed under taking a hop holds everyone reachable from `s`. */
  lemma {:induction false} ClosedHoldsWithin(db: Db, s: PersonId, e: set<PersonId>, k: nat)
    requires Valid(db) && s in e && e <= db.people.Keys
    requires forall p, h {:trigger h in Neighbors(db, p)} :: p in e && h in Neighbors(db, p) ==> h.1 in e
    ensures Within(db, s, k) <= e
  {
    if k > 0 {
      ClosedHoldsWithin(db, s, e, k - 1);
      forall q | q in Step(db, Within(db, s, k - 1)) ensures q in e {
        var p, m :| p in Within(db, s, k - 1) && p in db.people && m in db.people[p] && q in db.movies[m];
        assert (m, q) in Neighbors(db, p);
      }
    }
  }

  /* ---------------------------------------------------------------------- */
  /* Search nodes and the frontier                                           */

  /** A search node: the person reached, the node it was reached from and the movie taken. */
  datatype Node = Root(state: PersonId) | Child(state: PersonId, parent: Node, action: MovieId)

  /** The hops from the root to `n`, in order. */
  function PathTo(n: Node): seq<Hop>
  {
    match n
    case Root(_) => []
    case Child(q, parent, m) => PathTo(parent) + [(m, q)]
  }

  /** The number of hops from the root to `n`. */
  ghost function Depth(n: Node): nat
  {
    |PathTo(n)|
  }

  /** `n` was built from `Root(s)` by hops along co-star edges. */
  ghost predicate ValidNode(db: Db, s: PersonId, n: Node)
    requires Valid(db)
  {
    match n
    case Root(q) => q == s
    case Child(q, parent, m) =>
      ValidNode(db, s, parent) && parent.state in db.people && (m, q) in Neighbors(db, parent.state)
  }

  /** The hops to a valid node form a chain from `s` to the node's person. */
  lemma {:induction false} ValidNodeChain(db: Db, s: PersonId, n: Node)
    requires Valid(db) && ValidNode(db, s, n)
    ensures IsChain(db, s, PathTo(n)) && Last(s, PathTo(n)) == n.state
  {
    match n
    case Root(_) =>
    case Child(q, parent, m) =>
      ValidNodeChain(db, s, parent);
      assert PathTo(n)[..|PathTo(n)| - 1] == PathTo(parent);
  }

  /** The people held by the frontier's nodes (the frontier's `contains_state`). */
  function States(frontier: seq<Node>): set<PersonId>
  {
    set i | 0 <= i < |frontier| :: frontier[i].state
  }

  /* ---------------------------------------------------------------------- */
  /* Invariants of the breadth-first search                                  */

  /** The frontier holds distinct, unexplored, known people reached by valid nodes, in
      order of depth, every depth `d` or `d + 1`, and no node's person is reachable in fewer
      hops than the node took. */
  ghost predicate FrontierOk(db: Db, s: PersonId, frontier: seq<Node>, explored: set<PersonId>, d: nat)
    requires Valid(db)
  {
    && (forall i :: 0 <= i < |frontier| ==>
         && frontier[i].state in db.people
         && frontier[i].state !in explored
         && ValidNode(db, s, frontier[i])
         && d <= Depth(frontier[i]) <= d + 1
         && frontier[i].state !in Closer(db, s, Depth(frontier[i])))
    && (forall i, j :: 0 <= i < j < |frontier| ==>
         frontier[i].state != frontier[j].state && Depth(frontier[i]) <= Depth(frontier[j]))
  }

  /** What holds each time the search is about to take the next node off the frontier:
      everyone closer than `d` is explored, everyone within `d` hops has been seen, the
      target has not been seen, and every explored person's neighbours have been seen. */
  ghost predicate SearchOk(db: Db, s: PersonId, target: PersonId, frontier: seq<Node>,
                           explored: set<PersonId>, d: nat)
    requires Valid(db)
  {
    && explored <= db.people.Keys
    && FrontierOk(db, s, frontier, explored, d)
    && (frontier != [] ==> Depth(frontier[0]) == d)
    && Closer(db, s, d) <= explored
    && Within(db, s, d) <= explored + States(frontier)
    && target !in explored + States(frontier)
    && (forall p, h {:trigger h in Neighbors(db, p)} :: p in explored && h in Neighbors(db, p) ==>
         h.1 in explored + States(frontier))
  }

  /** What holds while the neighbours of `node` (at depth `d`, already explored) are visited:
      those in `done` have been seen; every other explored person is finished. */
  ghost predicate VisitOk(db: Db, s: PersonId, target: PersonId, frontier: seq<Node>,
                          explored: set<PersonId>, d: nat, node: Node, done: set<Hop>)
    requires Valid(db)
  {
    && explored <= db.people.Keys
    && FrontierOk(db, s, frontier, explored, d)
    && node.state in explored && ValidNode(db, s, node) && Depth(node) == d
    && Closer(db, s, d) <= explored
    && Within(db, s, d) <= explored + States(frontier)
    && target !in explored + States(frontier)
    && (forall p, h {:trigger h in Neighbors(db, p)} :: p in explored && p != node.state && h in Neighbors(db, p) ==>
         h.1 in explored + States(frontier))
    && (forall h :: h in done ==> h.1 in explored + States(frontier))
  }

  /** The search starts with the source's root node alone and nothing explored. */
  lemma SearchStarts(db: Db, s: PersonId, target: PersonId)
    requires Valid(db) && s in db.people && s != target
    ensures SearchOk(db, s, target, [Root(s)], {}, 0)
  {
    assert States([Root(s)]) == {s};
  }

  /** The people of a frontier are its first node's and those of the rest. */
  lemma StatesTail(frontier: seq<Node>)
    requires frontier != []
    ensures States(frontier) == {frontier[0].state} + States(frontier[1..])
  {
    var rest := frontier[1..];
    forall q | q in States(frontier) ensures q in {frontier[0].state} + States(rest) {
      var i :| 0 <= i < |frontier| && frontier[i].state == q;
      if i > 0 {
        assert rest[i - 1].state == q;
      }
    }
    forall q | q in States(rest) ensures q in States(frontier) {
      var i :| 0 <= i < |rest| && rest[i].state == q;
      assert frontier[i + 1].state == q;
    }
  }

  /** The people of a frontier with a node appended. */
  lemma StatesSnoc(frontier: seq<Node>, n: Node)
    ensures States(frontier + [n]) == States(frontier) + {n.state}
  {
    var f := frontier + [n];
    forall q | q in States(f) ensures q in States(frontier) + {n.state} {
      var i :| 0 <= i < |f| && f[i].state == q;
      if i < |frontier| {
        assert frontier[i].state == q;
      }
    }
    forall q | q in States(frontier) ensures q in States(f) {
      var i :| 0 <= i < |frontier| && frontier[i].state == q;
      assert f[i].state == q;
    }
    assert f[|frontier|].state == n.state;
  }

  /** Dropping the first node of a good frontier and exploring its person leaves a good frontier. */
  lemma FrontierTail(db: Db, s: PersonId, frontier: seq<Node>, explored: set<PersonId>, d: nat)
    requires Valid(db) && FrontierOk(db, s, frontier, explored, d) && frontier != []
    ensures FrontierOk(db, s, frontier[1..], explored + {frontier[0].state}, d)
  {
    var rest := frontier[1..];
    forall i | 0 <= i < |rest|
      ensures rest[i].state in db.people && rest[i].state !in explored + {frontier[0].state}
      ensures ValidNode(db, s, rest[i]) && d <= Depth(rest[i]) <= d + 1
      ensures rest[i].state !in Closer(db, s, Depth(rest[i]))
    {
      assert rest[i] == frontier[i + 1];
    }
    forall i, j | 0 <= i < j < |rest|
      ensures rest[i].state != rest[j].state && Depth(rest[i]) <= Depth(rest[j])
    {
      assert rest[i] == frontier[i + 1] && rest[j] == frontier[j + 1];
    }
  }

  /** Appending, to a good frontier, a child of a valid node at depth `d` whose person is
      unseen and not reachable in `d` hops leaves a good frontier. */
  lemma FrontierSnoc(db: Db, s: PersonId, frontier: seq<Node>, explored: set<PersonId>, d: nat,
                     node: Node, h: Hop)
    requires Valid(db) && FrontierOk(db, s, frontier, explored, d)
    requires ValidNode(db, s, node) && Depth(node) == d && node.state in db.people
    requires h in Neighbors(db, node.state)
    requires h.1 !in explored + States(frontier) && h.1 !in Within(db, s, d)
    ensures FrontierOk(db, s, frontier + [Child(h.1, node, h.0)], explored, d)
  {
    var child := Child(h.1, node, h.0);
    NeighborsKnown(db, node.state, h);
    assert Depth(child) == d + 1;
    var f := frontier + [child];
    forall i | 0 <= i < |f|
      ensures f[i].state in db.people && f[i].state !in explored && ValidNode(db, s, f[i])
      ensures d <= Depth(f[i]) <= d + 1 && f[i].state !in Closer(db, s, Depth(f[i]))
    {
      if i < |frontier| {
        assert f[i] == frontier[i];
      } else {
        assert f[i] == child;
      }
    }
    forall i, j | 0 <= i < j < |f|
      ensures f[i].state != f[j].state && Depth(f[i]) <= Depth(f[j])
    {
      assert f[i] == frontier[i];
      if j == |frontier| {
        assert f[i].state in States(frontier);
      } else {
        assert f[j] == frontier[j];
      }
    }
  }

  /** Taking the first node off the frontier and exploring its person starts its visit. */
  lemma PopNode(db: Db, s: PersonId, target: PersonId, frontier: seq<Node>, explored: set<PersonId>, d: nat)
    requires Valid(db) && SearchOk(db, s, target, frontier, explored, d) && frontier != []
    ensures VisitOk(db, s, target, frontier[1..], explored + {frontier[0].state}, d, frontier[0], {})
  {
    StatesTail(frontier);
    FrontierTail(db, s, frontier, explored, d);
  }

  /** A neighbour already seen leaves the frontier as it is. */
  lemma VisitSeen(db: Db, s: PersonId, target: PersonId, frontier: seq<Node>, explored: set<PersonId>,
                  d: nat, node: Node, done: set<Hop>, h: Hop)
    requires Valid(db) && VisitOk(db, s, target, frontier, explored, d, node, done)
    requires h.1 in explored + States(frontier)
    ensures VisitOk(db, s, target, frontier, explored, d, node, done + {h})
  {
  }

  /** A neighbour not seen before (and not the target) joins the back of the frontier. */
  lemma VisitAdd(db: Db, s: PersonId, target: PersonId, frontier: seq<Node>, explored: set<PersonId>,
                 d: nat, node: Node, done: set<Hop>, h: Hop)
    requires Valid(db) && VisitOk(db, s, target, frontier, explored, d, node, done)
    requires h in Neighbors(db, node.state) && h.1 != target && h.1 !in explored + States(frontier)
    ensures VisitOk(db, s, target, frontier + [Child(h.1, node, h.0)], explored, d, node, done + {h})
  {
    StatesSnoc(frontier, Child(h.1, node, h.0));
    FrontierSnoc(db, s, frontier, explored, d, node, h);
  }

  /** The depth the search moves on to once a node is finished: the depth of the new first
      node of the frontier, if there is one. */
  ghost function NextDepth(frontier: seq<Node>, d: nat): nat
  {
    if frontier != [] && Depth(frontier[0]) != d then d + 1 else d
  }

  /** Once every neighbour of the visited node has been seen, the search invariant holds
      again, at the depth of the new first node. */
  lemma FinishNode(db: Db, s: PersonId, target: PersonId, frontier: seq<Node>, explored: set<PersonId>,
                   d: nat, node: Node)
    requires Valid(db) && node.state in db.people
    requires VisitOk(db, s, target, frontier, explored, d, node, Neighbors(db, node.state))
    ensures SearchOk(db, s, target, frontier, explored, NextDepth(frontier, d))
  {
    if frontier != [] && Depth(frontier[0]) != d {
      assert forall i :: 0 <= i < |frontier| ==> Depth(frontier[i]) == d + 1 by {
        forall i | 0 <= i < |frontier| ensures Depth(frontier[i]) == d + 1 {
          if i > 0 {
            assert Depth(frontier[0]) <= Depth(frontier[i]);
          }
        }
      }
      assert Within(db, s, d) <= explored by {
        forall q | q in Within(db, s, d) ensures q in explored {
          forall i | 0 <= i < |frontier| ensures frontier[i].state != q {
            assert frontier[i].state !in Closer(db, s, Depth(frontier[i]));
          }
        }
      }
      assert Within(db, s, d + 1) <= explored + States(frontier) by {
        forall q | q in Step(db, Within(db, s, d)) ensures q in explored + States(frontier) {
          var p, m :| p in Within(db, s, d) && p in db.people && m in db.people[p] && q in db.movies[m];
          assert (m, q) in Neighbors(db, p);
        }
      }
    }
  }

  /** A neighbour of the visited node that is the target completes a chain to the target
      with one hop more than the node's, and no chain to the target is shorter. */
  lemma GoalFound(db: Db, s: PersonId, target: PersonId, frontier: seq<Node>, explored: set<PersonId>,
                  d: nat, node: Node, done: set<Hop>, h: Hop)
    requires Valid(db) && VisitOk(db, s, target, frontier, explored, d, node, done)
    requires h in Neighbors(db, node.state) && h.1 == target
    ensures IsChain(db, s, PathTo(node) + [h]) && Last(s, PathTo(node) + [h]) == target
    ensures forall c {:trigger IsChain(db, s, c)} :: IsChain(db, s, c) && Last(s, c) == target ==>
      |PathTo(node) + [h]| <= |c|
  {
    var goal := Child(h.1, node, h.0);
    assert ValidNode(db, s, goal);
    ValidNodeChain(db, s, goal);
    forall k | 0 <= k <= d ensures target !in Within(db, s, k) {
      WithinMonotone(db, s, k, d);
    }
    forall c | IsChain(db, s, c) && Last(s, c) == target
      ensures |PathTo(node) + [h]| <= |c|
    {
      ChainWithin(db, s, c);
    }
  }

  /** When the frontier runs out, no chain from `s` reaches the target. */
  lemma Exhausted(db: Db, s: PersonId, target: PersonId, explored: set<PersonId>, d: nat)
    requires Valid(db) && SearchOk(db, s, target, [], explored, d)
    ensures forall c {:trigger IsChain(db, s, c)} :: IsChain(db, s, c) ==> Last(s, c) != target
  {
    assert States([]) == {};
    WithinMonotone(db, s, 0, d);
    forall c | IsChain(db, s, c) ensures Last(s, c) != target {
      ChainWithin(db, s, c);
      ClosedHoldsWithin(db, s, explored, |c|);
    }
  }

  /* ---------------------------------------------------------------------- */
  /* shortest_path                                                           */

  /** The hops in the opposite order (the source's in-place `list.reverse`). */
  function Reverse(xs: seq<Hop>): (r: seq<Hop>)
    ensures |r| == |xs|
    ensures forall i :: 0 <= i < |xs| ==> r[i] == xs[|xs| - 1 - i]
  {
    if xs == [] then [] else Reverse(xs[1..]) + [xs[0]]
  }

  /** Reversing after appending puts the appended hop first. */
  lemma ReverseSnoc(xs: seq<Hop>, x: Hop)
    ensures Reverse(xs + [x]) == [x] + Reverse(xs)
  {
    var l := Reverse(xs + [x]);
    var r := [x] + Reverse(xs);
    assert |l| == |r|;
    forall i | 0 <= i < |l| ensures l[i] == r[i] {
      if i > 0 {
        assert (xs + [x])[|xs| - i] == xs[|xs| - 1 - (i - 1)];
      }
    }
  }

  /** The path to the goal hop made from `node`: the goal hop, then each node's hop while
      walking up the parent links to the root, and finally reversed. */
  method FollowParents(node: Node, goal: Hop) returns (path: seq<Hop>)
    ensures path == PathTo(node) + [goal]
  {
    path := [goal];
    var current := node;
    while current.Child?
      invariant PathTo(current) + Reverse(path) == PathTo(node) + [goal]
      decreases current
    {
      ReverseSnoc(path, (current.action, current.state));
      path := path + [(current.action, current.state)];
      current := current.parent;
    }
    path := Reverse(path);
  }

  /** Breadth-first search from `source` for `target`, testing each person for the goal when
      it is generated, and rebuilding the path from parent links. The result is `[]` when the
      two are the same person, otherwise a shortest chain of hops from `source` ending at
      `target`, or `None` when no chain reaches `target`. */
  method ShortestPath(db: Db, source: PersonId, target: PersonId) returns (r: Option<seq<Hop>>)
    requires Valid(db) && (source == target || source in db.people)
    ensures source == target ==> r == Some([])
    ensures r.Some? ==> IsChain(db, source, r.value) && Last(source, r.value) == target
    ensures r.Some? ==> forall c {:trigger IsChain(db, source, c)} ::
      IsChain(db, source, c) && Last(source, c) == target ==> |r.value| <= |c|
    ensures r.None? ==> forall c {:trigger IsChain(db, source, c)} ::
      IsChain(db, source, c) ==> Last(source, c) != target
  {
    if source == target {
      return Some([]);
    }
    var frontier := [Root(source)];
    var explored: set<PersonId> := {};
    ghost var d: nat := 0;
    SearchStarts(db, source, target);
    while true
      invariant SearchOk(db, source, target, frontier, explored, d)
      decreases |db.people.Keys - explored|
    {
      if frontier == [] {
        Exhausted(db, source, target, explored, d);
        return None;
      }
      PopNode(db, source, target, frontier, explored, d);
      var node := frontier[0];
      frontier := frontier[1..];
      ghost var before := explored;
      explored := explored + {node.state};
      assert |db.people.Keys - explored| < |db.people.Keys - before| by {
        assert db.people.Keys - explored < db.people.Keys - before;
      }
      var neighbors := NeighborsForPerson(db, node.state);
      var rest := neighbors;
      while rest != {}
        invariant rest <= neighbors
        invariant VisitOk(db, source, target, frontier, explored, d, node, neighbors - rest)
        invariant |db.people.Keys - explored| < |db.people.Keys - before|
      {
        var hop :| hop in rest;
        rest := rest - {hop};
        var (movie, person) := hop;
        if person == target {
          GoalFound(db, source, target, frontier, explored, d, node, neighbors - rest - {hop}, hop);
          var path := FollowParents(node, hop);
          return Some(path);
        }
        if person !in States(frontier) && person !in explored {
          VisitAdd(db, source, target, frontier, explored, d, node, neighbors - rest - {hop}, hop);
          frontier := frontier + [Child(person, node, movie)];
        } else {
          VisitSeen(db, source, target, frontier, explored, d, node, neighbors - rest - {hop}, hop);
        }
      }
      FinishNode(db, source, target, frontier, explored, d, node);
      d := NextDepth(frontier, d);
    }
  }
}
