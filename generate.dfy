/** The crossword generator: a constraint-satisfaction solver over the slots of a
    `Crossword.Structure`. Each slot's domain is a set of candidate words; the generator
    prunes the domains (node consistency, then AC-3 arc consistency) and then searches
    for a complete, consistent assignment by backtracking. */
module Generate {
  import opened Wrappers
  import opened Crossword

  type Domains = map<Variable, set<Word>>
  type Assignment = map<Variable, Word>

  /* ---------- node consistency ---------- */

  /** The words of `ws` whose length is `n`. */
  function LengthFilter(ws: set<Word>, n: nat): set<Word>
  {
    set w | w in ws && |w| == n
  }

  /** Every domain restricted to the words of its slot's length. */
  function NodeFilter(d: Domains): Domains
  {
    map v | v in d :: LengthFilter(d[v], v.length)
  }

  /** Every candidate word has its slot's length (the unary constraint). */
  ghost predicate NodeConsistent(d: Domains)
  {
    forall v, w :: v in d && w in d[v] ==> |w| == v.length
  }

  /** Every domain word reaches every overlap index of its slot. */
  ghost predicate DomainsFit(cw: Structure, d: Domains)
  {
    forall v, w :: v in d && w in d[v] ==> WordFits(cw, v, w)
  }

  /** `e` is `d` with some words removed and no slot added or dropped. */
  ghost predicate Shrunk(e: Domains, d: Domains)
  {
    e.Keys == d.Keys && forall v :: v in e ==> e[v] <= d[v]
  }

  /* ---------- assignments ---------- */

  /** No two slots hold the same word. */
  ghost predicate Injective(a: Assignment)
  {
    forall v, u :: v in a && u in a && v != u ==> a[v] != a[u]
  }

  /** Words `w` (in slot `x`) and `z` (in slot `y`) carry the same letter where the slots
      cross; slots that don't cross always agree. */
  predicate Agree(cw: Structure, x: Variable, w: Word, y: Variable, z: Word)
  {
    (x, y) in cw.overlaps && cw.overlaps[(x, y)].Some? ==>
      var o := cw.overlaps[(x, y)].value;
      o.0 < |w| && o.1 < |z| && w[o.0] == z[o.1]
  }

  /** The assignment satisfies every constraint of the puzzle: distinct words, the right
      lengths, and agreeing letters wherever two assigned slots cross. */
  ghost predicate IsConsistent(cw: Structure, a: Assignment)
    requires Valid(cw)
  {
    && Injective(a)
    && (forall v :: v in a ==> |a[v]| == v.length)
    && (forall v, u :: v in a && u in a && u in Neighbors(cw, v) ==> Agree(cw, v, a[v], u, a[u]))
  }

  /** `s` keeps every entry of `a`. */
  ghost predicate Extends(s: Assignment, a: Assignment)
  {
    forall v :: v in a ==> v in s && s[v] == a[v]
  }

  /** `s` is a solution of the puzzle that extends `a`: it fills exactly the slots of `d`,
      keeps `a`, takes every other word from its slot's domain, and is consistent. */
  ghost predicate SolutionFrom(cw: Structure, d: Domains, a: Assignment, s: Assignment)
    requires Valid(cw)
  {
    && s.Keys == d.Keys
    && Extends(s, a)
    && (forall v :: v in s && v !in a ==> s[v] in d[v])
    && IsConsistent(cw, s)
  }

  /** A solution using only the words of the domains. */
  ghost predicate Solution(cw: Structure, d: Domains, s: Assignment)
    requires Valid(cw)
  {
    SolutionFrom(cw, d, map[], s)
  }

  /** Pruning from `d` to `e` lost no solution. */
  ghost predicate KeepsSolutions(cw: Structure, d: Domains, e: Domains)
    requires Valid(cw)
  {
    forall s {:trigger Solution(cw, e, s)} :: Solution(cw, d, s) ==> Solution(cw, e, s)
  }

  /* ---------- arc consistency ---------- */

  /** Every word of `ws` has an index `j`. */
  predicate Longer(ws: set<Word>, j: nat)
  {
    forall z :: z in ws ==> j < |z|
  }

  /** The letters at index `j` of the words of `ws`. */
  function CharsAt(ws: set<Word>, j: nat): set<char>
    requires Longer(ws, j)
  {
    set z | z in ws :: z[j]
  }

  /** Some word of `ws` has, at index `j`, the letter `w` has at index `i`. */
  ghost predicate Supported(w: Word, i: nat, ws: set<Word>, j: nat)
  {
    exists z :: z in ws && i < |w| && j < |z| && w[i] == z[j]
  }

  /** The words of `dx` whose letter at `i` is matched at `j` by some word of `dy`. */
  function Revised(dx: set<Word>, i: nat, dy: set<Word>, j: nat): set<Word>
    requires Longer(dx, i) && Longer(dy, j)
  {
    set w | w in dx && w[i] in CharsAt(dy, j)
  }

  /** Arc `(x, y)` is consistent in `d`: every word left for `x` has a partner for `y`. */
  ghost predicate ArcConsistent(cw: Structure, d: Domains, arc: (Variable, Variable))
  {
    arc in cw.overlaps && cw.overlaps[arc].Some? && arc.0 in d && arc.1 in d ==>
      forall w :: w in d[arc.0] ==>
        Supported(w, cw.overlaps[arc].value.0, d[arc.1], cw.overlaps[arc].value.1)
  }

  /** Every arc of the puzzle is consistent in `d`: what AC-3 establishes. */
  ghost predicate AllConsistent(cw: Structure, d: Domains)
  {
    forall arc :: arc in cw.overlaps ==> ArcConsistent(cw, d, arc)
  }

  /** The arcs of the puzzle: every ordered pair of crossing slots. */
  ghost function AllArcs(cw: Structure): set<(Variable, Variable)>
    requires Valid(cw)
  {
    set x, y | x in cw.variables && y in Neighbors(cw, x) :: (x, y)
  }

  /** Every (slot, word) pair still in play; AC-3 terminates because each revision that
      changes something removes one of these. */
  ghost function Pairs(d: Domains): set<(Variable, Word)>
  {
    set v, w | v in d && w in d[v] :: (v, w)
  }

  /* ---------- heuristics ---------- */

  /** Slot `v` is at least as good a choice as `u`: fewer remaining words, or as many and
      at least as many neighbours (minimum remaining values, then highest degree). */
  ghost predicate NoWorse(cw: Structure, d: Domains, v: Variable, u: Variable)
    requires Valid(cw) && v in d && u in d
  {
    || |d[v]| < |d[u]|
    || (|d[v]| == |d[u]| && |Neighbors(cw, v)| >= |Neighbors(cw, u)|)
  }

  /** The words of the slots in `ns` that `w`, placed in `x`, rules out: every (slot, word)
      pair whose word has another letter where the slot crosses `x`. */
  ghost function Conflicts(cw: Structure, d: Domains, x: Variable, ns: set<Variable>, w: Word): set<(Variable, Word)>
  {
    set u, z | u in ns && u in d && z in d[u] && !Agree(cw, x, w, u, z) :: (u, z)
  }

  /** How many candidate words of the unassigned neighbours of `x` the word `w` rules out. */
  ghost function Cost(cw: Structure, d: Domains, x: Variable, a: Assignment, w: Word): nat
    requires Valid(cw)
  {
    |Conflicts(cw, d, x, Neighbors(cw, x) - a.Keys, w)|
  }

  /** The words of slot `u` that `w`, placed in `x`, rules out. */
  ghost function SlotConflicts(cw: Structure, d: Domains, x: Variable, u: Variable, w: Word): set<(Variable, Word)>
    requires u in d
  {
    set z | z in d[u] && !Agree(cw, x, w, u, z) :: (u, z)
  }

  /** The conflicts with one more slot are those with the others plus those with it. */
  lemma ConflictsAddSlot(cw: Structure, d: Domains, x: Variable, ns: set<Variable>, u: Variable, w: Word)
    requires u in d && u !in ns
    ensures |Conflicts(cw, d, x, ns + {u}, w)| == |Conflicts(cw, d, x, ns, w)| + |SlotConflicts(cw, d, x, u, w)|
  {
    var a, b := Conflicts(cw, d, x, ns, w), SlotConflicts(cw, d, x, u, w);
    assert Conflicts(cw, d, x, ns + {u}, w) == a + b;
    assert a * b == {};
  }

  /** Once every neighbour of `x` is assigned, no word of `x` rules anything out. */
  lemma NoOpenNeighborsNoCost(cw: Structure, d: Domains, x: Variable, a: Assignment, w: Word)
    requires Valid(cw) && Neighbors(cw, x) <= a.Keys
    ensures Cost(cw, d, x, a, w) == 0
  {
    assert Neighbors(cw, x) - a.Keys == {};
    assert Conflicts(cw, d, x, {}, w) == {};
  }

  /** The cost of the `k`-th word of `r`, or 0 past its end. */
  ghost function CostAt(cw: Structure, d: Domains, x: Variable, a: Assignment, r: seq<Word>, k: nat): nat
    requires Valid(cw)
  {
    if k < |r| then Cost(cw, d, x, a, r[k]) else 0
  }

  /** A word order whose costs strictly increase, as the generator's least-constraining-
      value order is, holds one word per cost. When every neighbour of `x` is assigned all
      words cost nothing, so at most one word is tried, and of two or more candidates some
      word is never tried. */
  lemma StrictCostOrderDropsWords(cw: Structure, d: Domains, x: Variable, a: Assignment, r: seq<Word>)
    requires Valid(cw) && x in d && Neighbors(cw, x) <= a.Keys
    requires forall k :: 0 <= k < |r| ==> r[k] in d[x]
    requires forall k, l :: 0 <= k < l < |r| ==> Cost(cw, d, x, a, r[k]) < Cost(cw, d, x, a, r[l])
    ensures |r| <= 1
    ensures |d[x]| >= 2 ==> exists w :: w in d[x] && w !in r
  {
    forall k | 0 <= k < |r|
      ensures Cost(cw, d, x, a, r[k]) == 0
    {
      NoOpenNeighborsNoCost(cw, d, x, a, r[k]);
    }
    assert CostAt(cw, d, x, a, r, 0) == CostAt(cw, d, x, a, r, 1) == 0;
    if |d[x]| >= 2 {
      var w1 :| w1 in d[x];
      assert |d[x] - {w1}| == |d[x]| - 1;
      var w2 :| w2 in d[x] - {w1};
      if r == [] {
        assert w1 !in r;
      } else if r[0] == w1 {
        assert w2 !in r;
      } else {
        assert w1 !in r;
      }
    }
  }

  /** The smallest number of a non-empty set. */
  method MinKey(keys: set<nat>) returns (m: nat)
    requires keys != {}
    ensures m in keys && forall k :: k in keys ==> m <= k
  {
    m :| m in keys;
    var rest := keys - {m};
    while rest != {}
      invariant rest <= keys && m in keys
      invariant forall k :: k in keys && k !in rest ==> m <= k
      decreases rest
    {
      var k :| k in rest;
      if k < m {
        m := k;
      }
      rest := rest - {k};
    }
  }

  /** The values of `m` in increasing order of their keys; `ks` lists those keys. */
  method ValuesByKey(m: map<nat, Word>) returns (r: seq<Word>, ks: seq<nat>)
    ensures |ks| == |r| == |m|
    ensures forall i :: 0 <= i < |r| ==> ks[i] in m && r[i] == m[ks[i]]
    ensures forall i, j :: 0 <= i < j < |ks| ==> ks[i] < ks[j]
    ensures forall c :: c in m ==> c in ks
  {
    r, ks := [], [];
    var keys := m.Keys;
    while keys != {}
      invariant keys <= m.Keys && |ks| == |r| == |m.Keys| - |keys|
      invariant forall i :: 0 <= i < |r| ==> ks[i] in m && ks[i] !in keys && r[i] == m[ks[i]]
      invariant forall i, j :: 0 <= i < j < |ks| ==> ks[i] < ks[j]
      invariant forall i, c :: 0 <= i < |ks| && c in keys ==> ks[i] < c
      invariant forall c :: c in m && c !in keys ==> c in ks
      decreases keys
    {
      var k := MinKey(keys);
      r, ks := r + [m[k]], ks + [k];
      keys := keys - {k};
    }
  }

  /* ---------- lemmas: node consistency ---------- */

  /** The length filter keeps exactly the words of the right length, so its result is node
      consistent, fits the overlaps, and loses no solution. */
  lemma NodeFilterCorrect(cw: Structure, d: Domains)
    requires Valid(cw)
    ensures Shrunk(NodeFilter(d), d)
    ensures forall v, w :: v in d ==> (w in NodeFilter(d)[v] <==> w in d[v] && |w| == v.length)
    ensures NodeConsistent(NodeFilter(d))
    ensures DomainsFit(cw, NodeFilter(d))
    ensures KeepsSolutions(cw, d, NodeFilter(d))
  {
    var e := NodeFilter(d);
    forall v, w | v in e && w in e[v]
      ensures WordFits(cw, v, w)
    {
      RightLengthFits(cw, v, w);
    }
    forall s | Solution(cw, d, s)
      ensures Solution(cw, e, s)
    {
      assert forall v :: v in s ==> s[v] in e[v];
    }
  }

  /** Filtering twice is filtering once; a node-consistent map is left alone. */
  lemma NodeFilterIdempotent(d: Domains)
    ensures NodeConsistent(d) ==> NodeFilter(d) == d
    ensures NodeFilter(NodeFilter(d)) == NodeFilter(d)
  {
    if NodeConsistent(d) {
      forall v | v in d
        ensures NodeFilter(d)[v] == d[v]
      {
      }
    }
    var e := NodeFilter(d);
    forall v | v in e
      ensures NodeFilter(e)[v] == e[v]
    {
    }
  }

  /* ---------- lemmas: revision ---------- */

  /** A word survives revision exactly when some word of the other domain supports it. */
  lemma RevisedIff(dx: set<Word>, i: nat, dy: set<Word>, j: nat, w: Word)
    requires Longer(dx, i) && Longer(dy, j)
    ensures w in Revised(dx, i, dy, j) <==> w in dx && Supported(w, i, dy, j)
  {
    if w in dx && Supported(w, i, dy, j) {
      var z :| z in dy && i < |w| && j < |z| && w[i] == z[j];
      assert z[j] in CharsAt(dy, j);
    }
  }

  /** After revising `x` against `y`, the arc `(x, y)` is consistent. */
  lemma RevisedArcConsistent(cw: Structure, d: Domains, x: Variable, y: Variable)
    requires Valid(cw) && DomainsFit(cw, d)
    requires (x, y) in cw.overlaps && cw.overlaps[(x, y)].Some? && x in d && y in d
    ensures var o := cw.overlaps[(x, y)].value;
      OverlapFits(cw, d, x, y) &&
      ArcConsistent(cw, d[x := Revised(d[x], o.0, d[y], o.1)], (x, y))
  {
    var o := cw.overlaps[(x, y)].value;
    OverlapFitsHolds(cw, d, x, y);
    var e := d[x := Revised(d[x], o.0, d[y], o.1)];
    assert e[y] == d[y];
    forall w | w in e[x]
      ensures Supported(w, o.0, e[y], o.1)
    {
      RevisedIff(d[x], o.0, d[y], o.1, w);
    }
  }

  /** Both indices of the crossing of `x` and `y` lie inside every word of their domains. */
  ghost predicate OverlapFits(cw: Structure, d: Domains, x: Variable, y: Variable)
    requires (x, y) in cw.overlaps && cw.overlaps[(x, y)].Some? && x in d && y in d
  {
    Longer(d[x], cw.overlaps[(x, y)].value.0) && Longer(d[y], cw.overlaps[(x, y)].value.1)
  }

  lemma OverlapFitsHolds(cw: Structure, d: Domains, x: Variable, y: Variable)
    requires Valid(cw) && DomainsFit(cw, d)
    requires (x, y) in cw.overlaps && cw.overlaps[(x, y)].Some? && x in d && y in d
    ensures OverlapFits(cw, d, x, y)
  {
    assert (y, x) in cw.overlaps && cw.overlaps[(y, x)] == Swap(cw.overlaps[(x, y)]);
    forall z | z in d[y]
      ensures cw.overlaps[(x, y)].value.1 < |z|
    {
      assert WordFits(cw, y, z);
      assert cw.overlaps[(y, x)].value.0 < |z|;
    }
  }

  /** Revision removes only words that no solution uses. */
  lemma RevisedKeepsSolutions(cw: Structure, d: Domains, x: Variable, y: Variable)
    requires Valid(cw) && DomainsFit(cw, d)
    requires (x, y) in cw.overlaps && cw.overlaps[(x, y)].Some? && x in d && y in d
    ensures OverlapFits(cw, d, x, y)
    ensures var o := cw.overlaps[(x, y)].value;
      KeepsSolutions(cw, d, d[x := Revised(d[x], o.0, d[y], o.1)])
  {
    var o := cw.overlaps[(x, y)].value;
    OverlapFitsHolds(cw, d, x, y);
    var e := d[x := Revised(d[x], o.0, d[y], o.1)];
    forall s | Solution(cw, d, s)
      ensures Solution(cw, e, s)
    {
      RevisedKeepsSolution(cw, d, x, y, o, s);
    }
  }

  lemma RevisedKeepsSolution(cw: Structure, d: Domains, x: Variable, y: Variable, o: Overlap, s: Assignment)
    requires Valid(cw) && (x, y) in cw.overlaps && cw.overlaps[(x, y)] == Some(o)
    requires x in d && y in d && Longer(d[x], o.0) && Longer(d[y], o.1)
    requires Solution(cw, d, s)
    ensures Solution(cw, d[x := Revised(d[x], o.0, d[y], o.1)], s)
  {
    assert y in Neighbors(cw, x);
    ConsistentAgree(cw, s, x, y);
    RevisedIff(d[x], o.0, d[y], o.1, s[x]);
    SolutionMovesOne(cw, d, x, Revised(d[x], o.0, d[y], o.1), s);
  }

  /** A consistent assignment agrees on every crossing of two assigned slots. */
  lemma ConsistentAgree(cw: Structure, s: Assignment, v: Variable, u: Variable)
    requires Valid(cw) && IsConsistent(cw, s)
    requires v in s && u in s && u in Neighbors(cw, v)
    ensures Agree(cw, v, s[v], u, s[u])
  {
  }

  /** A solution stays a solution when one slot's domain is replaced by a set that still
      holds the solution's word. */
  lemma SolutionMovesOne(cw: Structure, d: Domains, x: Variable, ws: set<Word>, s: Assignment)
    requires Valid(cw) && Solution(cw, d, s) && x in d && x in s && s[x] in ws
    ensures Solution(cw, d[x := ws], s)
  {
  }

  /** A revision of `x` against `y` keeps every consistent arc consistent, except the arcs
      that point at `x` from another slot than `y`. The arc `(y, x)` is kept because the
      constraint is symmetric: a word of `x` that supports a word of `y` is itself
      supported by it, so it is never removed. */
  lemma RevisedKeepsArc(cw: Structure, d: Domains, x: Variable, y: Variable, arc: (Variable, Variable))
    requires Valid(cw) && DomainsFit(cw, d)
    requires (x, y) in cw.overlaps && cw.overlaps[(x, y)].Some? && x in d && y in d
    requires ArcConsistent(cw, d, arc)
    requires arc.1 != x || arc.0 == y
    ensures OverlapFits(cw, d, x, y)
    ensures var o := cw.overlaps[(x, y)].value;
      ArcConsistent(cw, d[x := Revised(d[x], o.0, d[y], o.1)], arc)
  {
    var o := cw.overlaps[(x, y)].value;
    OverlapFitsHolds(cw, d, x, y);
    var e := d[x := Revised(d[x], o.0, d[y], o.1)];
    if arc in cw.overlaps && cw.overlaps[arc].Some? && arc.0 in e && arc.1 in e {
      var p := cw.overlaps[arc].value;
      if arc.1 != x {
        forall w | w in e[arc.0]
          ensures Supported(w, p.0, e[arc.1], p.1)
        {
          if arc.0 == x {
            RevisedIff(d[x], o.0, d[y], o.1, w);
          }
          assert Supported(w, p.0, d[arc.1], p.1);
        }
      } else {
        assert arc == (y, x);
        assert p == (o.1, o.0);
        forall w | w in e[y]
          ensures Supported(w, o.1, e[x], o.0)
        {
          assert Supported(w, o.1, d[x], o.0);
          var z :| z in d[x] && o.1 < |w| && o.0 < |z| && w[o.1] == z[o.0];
          assert Supported(z, o.0, d[y], o.1);
          RevisedIff(d[x], o.0, d[y], o.1, z);
        }
      }
    }
  }

  /** Removing words from one domain removes (slot, word) pairs. */
  lemma PairsShrink(d: Domains, x: Variable, ws: set<Word>)
    requires x in d && ws < d[x]
    ensures |Pairs(d[x := ws])| < |Pairs(d)|
  {
    var w :| w in d[x] && w !in ws;
    var e := d[x := ws];
    assert Pairs(e) < Pairs(d) by {
      forall p | p in Pairs(e)
        ensures p in Pairs(d)
      {
        assert p.0 in e && p.1 in e[p.0];
      }
      assert (x, w) in Pairs(d) && (x, w) !in Pairs(e);
    }
    var a, b := Pairs(e), Pairs(d);
    assert b == a + (b - a) && a * (b - a) == {};
    assert (x, w) in b - a;
  }

  /** Pruning lost no solution, in two steps as in one. */
  lemma KeepsSolutionsTrans(cw: Structure, d1: Domains, d2: Domains, d3: Domains)
    requires Valid(cw) && KeepsSolutions(cw, d1, d2) && KeepsSolutions(cw, d2, d3)
    ensures KeepsSolutions(cw, d1, d3)
  {
    forall s | Solution(cw, d1, s)
      ensures Solution(cw, d3, s)
    {
      assert Solution(cw, d2, s);
    }
  }

  /** Words that fit keep fitting when domains shrink. */
  lemma ShrunkFits(cw: Structure, d: Domains, e: Domains)
    requires DomainsFit(cw, d) && Shrunk(e, d)
    ensures DomainsFit(cw, e)
  {
    forall v, w | v in e && w in e[v]
      ensures WordFits(cw, v, w)
    {
      assert w in d[v];
    }
  }

  /** The AC-3 worklist invariant after a revision of `x` against `y` that removed words:
      every tracked arc is still queued or is consistent, once the arcs `(z, x)` for the
      other neighbours `z` of `x` have been queued. */
  lemma TrackedAfterRevision(cw: Structure, d: Domains, x: Variable, y: Variable, o: Overlap,
                             q: seq<(Variable, Variable)>, q2: seq<(Variable, Variable)>,
                             tracked: set<(Variable, Variable)>)
    requires Valid(cw) && DomainsFit(cw, d)
    requires (x, y) in cw.overlaps && cw.overlaps[(x, y)] == Some(o) && x in d && y in d
    requires Longer(d[x], o.0) && Longer(d[y], o.1)
    requires |q| > 0 && q[0] == (x, y)
    requires forall arc :: arc in tracked ==> arc in q || ArcConsistent(cw, d, arc)
    requires forall arc :: arc in q[1..] ==> arc in q2
    requires forall z :: z in Neighbors(cw, x) - {y} ==> (z, x) in q2
    ensures forall arc :: arc in tracked ==>
      arc in q2 || ArcConsistent(cw, d[x := Revised(d[x], o.0, d[y], o.1)], arc)
  {
    var e := d[x := Revised(d[x], o.0, d[y], o.1)];
    forall arc | arc in tracked && arc !in q2
      ensures ArcConsistent(cw, e, arc)
    {
      assert arc !in q[1..];
      if arc == (x, y) {
        RevisedArcConsistent(cw, d, x, y);
      } else {
        assert q == [q[0]] + q[1..];
        assert arc !in q;
        if arc.1 != x || arc.0 == y {
          RevisedKeepsArc(cw, d, x, y, arc);
        } else if arc in cw.overlaps {
          // `arc` is `(z, x)` for a slot `z` that is not a queued neighbour, so it does
          // not cross `x` and the arc holds trivially.
          var z := arc.0;
          assert z !in Neighbors(cw, x) - {y};
          assert (x, z) in cw.overlaps && cw.overlaps[(x, z)].None?;
          assert cw.overlaps[(z, x)] == Swap(cw.overlaps[(x, z)]);
        }
      }
    }
  }

  /** Started from every arc of the puzzle, AC-3 tracks every arc. */
  lemma AllArcsTracked(cw: Structure, d: Domains, queue: seq<(Variable, Variable)>)
    requires Valid(cw)
    requires forall arc :: arc in queue <==> arc in AllArcs(cw)
    ensures forall arc :: arc in cw.overlaps ==> arc in queue || ArcConsistent(cw, d, arc)
  {
    forall arc | arc in cw.overlaps && cw.overlaps[arc].Some?
      ensures arc in queue
    {
      assert arc.1 in Neighbors(cw, arc.0);
      assert arc in AllArcs(cw);
    }
  }

  /** The AC-3 worklist invariant after a revision that removed nothing. */
  lemma TrackedUnrevised(cw: Structure, d: Domains, x: Variable, y: Variable,
                         q: seq<(Variable, Variable)>, tracked: set<(Variable, Variable)>)
    requires Valid(cw) && DomainsFit(cw, d)
    requires (x, y) in cw.overlaps && x in d && y in d
    requires cw.overlaps[(x, y)].Some? ==>
      var o := cw.overlaps[(x, y)].value;
      Longer(d[x], o.0) && Longer(d[y], o.1) && d[x := Revised(d[x], o.0, d[y], o.1)] == d
    requires |q| > 0 && q[0] == (x, y)
    requires forall arc :: arc in tracked ==> arc in q || ArcConsistent(cw, d, arc)
    ensures forall arc :: arc in tracked ==> arc in q[1..] || ArcConsistent(cw, d, arc)
  {
    if cw.overlaps[(x, y)].Some? {
      RevisedArcConsistent(cw, d, x, y);
    }
    assert q == [q[0]] + q[1..];
  }

  /** What AC-3 keeps true of the domains `d`, pruned from `d0`. */
  ghost predicate PruneInv(cw: Structure, d0: Domains, d: Domains)
    requires Valid(cw)
  {
    DomainsFit(cw, d) && Shrunk(d, d0) && KeepsSolutions(cw, d0, d)
  }

  /** No domain of `d` is empty unless it already was in `d0`. */
  ghost predicate EmptiedNone(d0: Domains, d: Domains)
  {
    forall v :: v in d && d[v] == {} ==> v in d0 && d0[v] == {}
  }

  /** What AC-3 keeps true of its worklist: every queued arc is an arc of the puzzle, and
      every tracked arc is queued or consistent. */
  ghost predicate QueueInv(cw: Structure, d: Domains, queue: seq<(Variable, Variable)>,
                           tracked: set<(Variable, Variable)>)
  {
    && (forall arc :: arc in queue ==> arc in cw.overlaps)
    && (forall arc :: arc in tracked ==> arc in queue || ArcConsistent(cw, d, arc))
  }

  /** `e` is what revising `x` against `y` makes of `d`. */
  ghost predicate RevisionOf(cw: Structure, d: Domains, x: Variable, y: Variable, e: Domains)
    requires (x, y) in cw.overlaps && x in d && y in d
  {
    if cw.overlaps[(x, y)].None? then e == d
    else
      var o := cw.overlaps[(x, y)].value;
      Longer(d[x], o.0) && Longer(d[y], o.1) && e == d[x := Revised(d[x], o.0, d[y], o.1)]
  }

  /** Revising an arc that is already consistent removes nothing. */
  lemma ConsistentArcUnrevised(cw: Structure, d: Domains, x: Variable, y: Variable, o: Overlap)
    requires (x, y) in cw.overlaps && cw.overlaps[(x, y)] == Some(o) && x in d && y in d
    requires Longer(d[x], o.0) && Longer(d[y], o.1)
    requires ArcConsistent(cw, d, (x, y))
    ensures Revised(d[x], o.0, d[y], o.1) == d[x]
  {
    forall w | w in d[x]
      ensures w in Revised(d[x], o.0, d[y], o.1)
    {
      RevisedIff(d[x], o.0, d[y], o.1, w);
    }
  }

  /** One revision keeps the pruning invariant. */
  lemma PruneStep(cw: Structure, d0: Domains, d: Domains, x: Variable, y: Variable, e: Domains)
    requires Valid(cw) && PruneInv(cw, d0, d)
    requires (x, y) in cw.overlaps && x in d && y in d && RevisionOf(cw, d, x, y, e)
    ensures PruneInv(cw, d0, e)
    ensures e.Keys == d.Keys
    ensures e[x] != d[x] ==> |Pairs(e)| < |Pairs(d)|
    ensures e[x] == d[x] ==> e == d
    ensures ArcConsistent(cw, d, (x, y)) ==> e == d
    ensures EmptiedNone(d0, d) && e[x] != {} ==> EmptiedNone(d0, e)
    ensures e[x] == {} && e[x] != d[x] ==> d0[x] != {}
  {
    if cw.overlaps[(x, y)].Some? {
      if ArcConsistent(cw, d, (x, y)) {
        ConsistentArcUnrevised(cw, d, x, y, cw.overlaps[(x, y)].value);
      }
      RevisedKeepsSolutions(cw, d, x, y);
      KeepsSolutionsTrans(cw, d0, d, e);
      ShrunkFits(cw, d, e);
      if e[x] != d[x] {
        PairsShrink(d, x, e[x]);
      }
    }
  }

  /** One revision, and the re-queueing that follows a change, keep the worklist
      invariant. */
  lemma QueueStep(cw: Structure, d: Domains, x: Variable, y: Variable, e: Domains,
                  q: seq<(Variable, Variable)>, q1: seq<(Variable, Variable)>, q2: seq<(Variable, Variable)>,
                  tracked: set<(Variable, Variable)>)
    requires Valid(cw) && DomainsFit(cw, d) && QueueInv(cw, d, q, tracked)
    requires (x, y) in cw.overlaps && x in d && y in d && RevisionOf(cw, d, x, y, e)
    requires |q| > 0 && q[0] == (x, y) && q1 == q[1..]
    requires e[x] == d[x] ==> q2 == q1
    requires e[x] != d[x] ==>
      && |q2| >= |q1| && q2[..|q1|] == q1
      && (forall arc :: arc in q2 ==> arc in q1 || (arc.1 == x && arc.0 in Neighbors(cw, x) - {y}))
      && (forall z :: z in Neighbors(cw, x) - {y} ==> (z, x) in q2)
    ensures QueueInv(cw, e, q2, tracked)
  {
    assert q == [q[0]] + q[1..];
    if e[x] == d[x] {
      assert e == d;
      TrackedUnrevised(cw, d, x, y, q, tracked);
    } else {
      var o := cw.overlaps[(x, y)].value;
      forall arc | arc in q[1..]
        ensures arc in q2
      {
        var k :| 0 <= k < |q[1..]| && q[1..][k] == arc;
        assert q2[k] == arc;
      }
      TrackedAfterRevision(cw, d, x, y, o, q, q2, tracked);
    }
  }

  lemma KeepsSolutionsRefl(cw: Structure, d: Domains)
    requires Valid(cw)
    ensures KeepsSolutions(cw, d, d)
  {
  }

  /* ---------- lemmas: assignments ---------- */

  /** An assignment has at most as many distinct words as slots, and exactly as many when
      no word is used twice. */
  lemma {:induction false} InjectiveIff(a: Assignment)
    ensures |a.Values| <= |a.Keys|
    ensures |a.Values| == |a.Keys| <==> Injective(a)
    decreases |a.Keys|
  {
    if a.Keys != {} {
      var k :| k in a.Keys;
      var b := a - {k};
      assert a.Keys == b.Keys + {k};
      InjectiveIff(b);
      if a[k] in b.Values {
        assert a.Values == b.Values by {
          forall w | w in a.Values
            ensures w in b.Values
          {
            var v :| v in a && a[v] == w;
            if v != k {
              assert b[v] == w;
            }
          }
        }
        var j :| j in b && b[j] == a[k];
        assert !Injective(a) by {
          assert j in a && k in a && j != k && a[j] == a[k];
        }
      } else {
        assert a.Values == b.Values + {a[k]} by {
          forall w | w in a.Values
            ensures w in b.Values + {a[k]}
          {
            var v :| v in a && a[v] == w;
            if v != k {
              assert b[v] == w;
            }
          }
        }
        if Injective(b) {
          forall v, u | v in a && u in a && v != u
            ensures a[v] != a[u]
          {
            if v != k && u != k {
              assert b[v] != b[u];
            } else if v == k {
              assert a[u] == b[u];
            } else {
              assert a[v] == b[v];
            }
          }
        } else {
          var v, u :| v in b && u in b && v != u && b[v] == b[u];
          assert a[v] == a[u];
        }
      }
    }
  }

  /** The word of slot `v` has the slot's length and agrees with every assigned
      neighbour. */
  ghost predicate SlotOk(cw: Structure, a: Assignment, v: Variable)
    requires Valid(cw) && v in a
  {
    |a[v]| == v.length && forall u :: u in a && u in Neighbors(cw, v) ==> Agree(cw, v, a[v], u, a[u])
  }

  /** Consistency, slot by slot. */
  lemma ConsistentBySlots(cw: Structure, a: Assignment)
    requires Valid(cw)
    ensures IsConsistent(cw, a) <==> Injective(a) && forall v :: v in a ==> SlotOk(cw, a, v)
  {
  }

  /** A solution from a larger assignment, whose extra slot takes a domain word, is a
      solution from the smaller one. */
  lemma SolutionFromShrink(cw: Structure, d: Domains, a: Assignment, v: Variable, w: Word, s: Assignment)
    requires Valid(cw) && v !in a && v in d && w in d[v]
    requires SolutionFrom(cw, d, a[v := w], s)
    ensures SolutionFrom(cw, d, a, s)
  {
  }

  /* ---------- lemmas: search ---------- */

  /** What the recursive search returns from `a[v := w]` is a solution from `a`. */
  lemma FoundSolution(cw: Structure, d: Domains, a: Assignment, v: Variable, w: Word, r: Assignment)
    requires Valid(cw) && v in d && v !in a && w in d[v]
    requires a.Keys <= d.Keys && IsConsistent(cw, a[v := w])
    requires (r == a[v := w] && forall u :: u in d ==> u in a[v := w]) || SolutionFrom(cw, d, a[v := w], r)
    ensures SolutionFrom(cw, d, a, r)
  {
    if r == a[v := w] && forall u :: u in d ==> u in a[v := w] {
      assert SolutionFrom(cw, d, a[v := w], r);
    }
    SolutionFromShrink(cw, d, a, v, w, r);
  }

  /** What a search from the empty assignment over pruned domains `d` says about the
      original domains `d0`. */
  lemma SearchResult(cw: Structure, d0: Domains, d: Domains, r: Assignment)
    requires Valid(cw) && Shrunk(d, d0)
    requires (r == map[] && d.Keys == {}) || Solution(cw, d, r)
    ensures Solution(cw, d0, r)
  {
    if r == map[] && d.Keys == {} {
      assert Solution(cw, d, r);
    }
    assert forall v :: v in r ==> r[v] in d0[v];
  }

  /** `q2` is `queue` followed by one arc `(z, x)` for each `z` of `done`, the one for `z`
      sitting at index `at[z]`. */
  ghost predicate ArcsAppended(queue: seq<(Variable, Variable)>, q2: seq<(Variable, Variable)>, x: Variable,
                               done: set<Variable>, at: map<Variable, nat>)
  {
    && |q2| == |queue| + |done| && q2[..|queue|] == queue
    && (forall k :: |queue| <= k < |q2| ==> q2[k].1 == x && q2[k].0 in done)
    && (forall z :: z in done ==> z in at && |queue| <= at[z] < |q2| && q2[at[z]] == (z, x))
  }

  /** Appending `(z, x)` for a new `z` keeps `ArcsAppended`. */
  lemma ArcAppended(queue: seq<(Variable, Variable)>, q2: seq<(Variable, Variable)>, x: Variable,
                    done: set<Variable>, at: map<Variable, nat>, z: Variable)
    requires ArcsAppended(queue, q2, x, done, at) && z !in done
    ensures ArcsAppended(queue, q2 + [(z, x)], x, done + {z}, at[z := |q2|])
  {
    var q3 := q2 + [(z, x)];
    assert q3[..|queue|] == q2[..|queue|];
    assert forall k :: 0 <= k < |q2| ==> q3[k] == q2[k];
  }

  /** What `ArcsAppended` says about the arcs of the finished queue. */
  lemma ArcsAppendedMembers(queue: seq<(Variable, Variable)>, q2: seq<(Variable, Variable)>, x: Variable,
                            others: set<Variable>, at: map<Variable, nat>)
    requires ArcsAppended(queue, q2, x, others, at)
    ensures forall arc :: arc in q2 ==> arc in queue || (arc.1 == x && arc.0 in others)
    ensures forall z :: z in others ==> (z, x) in q2
    ensures forall z :: z in others ==> exists k :: |queue| <= k < |q2| && q2[k] == (z, x)
  {
    forall arc | arc in q2
      ensures arc in queue || (arc.1 == x && arc.0 in others)
    {
      var k :| 0 <= k < |q2| && q2[k] == arc;
      if k < |queue| {
        assert q2[..|queue|][k] == arc;
      }
    }
    assert forall z :: z in others ==> |queue| <= at[z] < |q2| && q2[at[z]] == (z, x);
  }

  /** Appends `(z, x)` for every `z` of `others`, in an arbitrary order; `at` says where
      each arc went. */
  method AppendArcs(queue: seq<(Variable, Variable)>, x: Variable, others: set<Variable>)
    returns (q2: seq<(Variable, Variable)>, ghost at: map<Variable, nat>)
    ensures ArcsAppended(queue, q2, x, others, at)
  {
    q2 := queue;
    at := map[];
    var rest := others;
    ghost var done: set<Variable> := {};
    while rest != {}
      invariant rest !! done && rest + done == others
      invariant ArcsAppended(queue, q2, x, done, at)
      decreases rest
    {
      var z :| z in rest;
      ArcAppended(queue, q2, x, done, at, z);
      at := at[z := |q2|];
      q2 := q2 + [(z, x)];
      rest := rest - {z};
      done := done + {z};
    }
  }

  /* ---------- the generator ---------- */

  class CrosswordCreator {
    const crossword: Structure
    /** The candidate words of every slot. */
    var domains: Domains

    /** The structure is well formed and every slot has a domain. */
    ghost predicate Valid()
      reads this
    {
      Crossword.Valid(crossword) && domains.Keys == crossword.variables
    }

    /** Every slot starts with the whole word list. */
    constructor(cw: Structure)
      ensures crossword == cw
      ensures domains == map v | v in cw.variables :: cw.words
      ensures Crossword.Valid(cw) ==> Valid()
    {
      crossword := cw;
      domains := map v | v in cw.variables :: cw.words;
    }

    /** Drops from every domain the words that do not have the slot's length. */
    method EnforceNodeConsistency()
      modifies this
      ensures domains == NodeFilter(old(domains))
    {
      var rest := domains.Keys;
      while rest != {}
        invariant rest <= domains.Keys == old(domains).Keys
        invariant forall v :: v in domains ==>
          domains[v] == if v in rest then old(domains)[v] else LengthFilter(old(domains)[v], v.length)
        decreases rest
      {
        var v :| v in rest;
        var updated := set w | w in domains[v] && |w| == v.length;
        domains := domains[v := updated];
        rest := rest - {v};
      }
    }

    /** Removes from the domain of `x` the words that no word of `y` matches where the two
        slots cross; says whether anything was removed. Slots that do not cross are left
        alone. */
    method Revise(x: Variable, y: Variable) returns (revised: bool)
      requires Valid() && DomainsFit(crossword, domains)
      requires (x, y) in crossword.overlaps
      modifies this
      ensures RevisionOf(crossword, old(domains), x, y, domains)
      ensures revised <==> domains[x] != old(domains)[x]
    {
      if crossword.overlaps[(x, y)].None? {
        return false;
      }
      var o := crossword.overlaps[(x, y)].value;
      OverlapFitsHolds(crossword, domains, x, y);
      var chars := set z | z in domains[y] :: z[o.1];
      var oldWords := domains[x];
      var updated := set w | w in oldWords && w[o.0] in chars;
      assert chars == CharsAt(domains[y], o.1);
      assert updated == Revised(domains[x], o.0, domains[y], o.1);
      domains := domains[x := updated];
      revised := updated != oldWords;
    }
 
    /** Every arc of the puzzle, in an arbitrary order. */
    method InitialQueue() returns (queue: seq<(Variable, Variable)>)
      requires Valid()
      ensures forall arc :: arc in queue <==> arc in AllArcs(crossword)
      ensures forall i, j :: 0 <= i < j < |queue| ==> queue[i] != queue[j]
    {
      queue := [];
      var rest := domains.Keys;
      while rest != {}
        invariant rest <= domains.Keys
        invariant forall arc :: arc in queue <==>
          arc.0 in domains.Keys - rest && arc.1 in Neighbors(crossword, arc.0)
        invariant forall i, j :: 0 <= i < j < |queue| ==> queue[i] != queue[j]
        decreases rest
      {
        var v :| v in rest;
        var ns := Neighbors(crossword, v);
        var nrest := ns;
        while nrest != {}
          invariant nrest <= ns
          invariant forall arc :: arc in queue <==>
            (arc.0 in domains.Keys - rest && arc.1 in Neighbors(crossword, arc.0)) ||
            (arc.0 == v && arc.1 in ns - nrest)
          invariant forall i, j :: 0 <= i < j < |queue| ==> queue[i] != queue[j]
          decreases nrest
        {
          var u :| u in nrest;
          queue := queue + [(v, u)];
          nrest := nrest - {u};
        }
        rest := rest - {v};
      }
    }
 
    /** AC-3: revises arcs from a FIFO worklist (all arcs of the puzzle, or `arcs` when
        given) until it is empty, re-queueing the arcs into a slot whose domain shrank.
        Fails as soon as a revision empties a domain. Whatever the outcome, no solution
        is lost; on success every tracked arc is consistent. */
    method Ac3(arcs: Option<seq<(Variable, Variable)>>) returns (ok: bool)
      requires Valid() && DomainsFit(crossword, domains)
      requires arcs.Some? ==> forall k :: 0 <= k < |arcs.value| ==> arcs.value[k] in crossword.overlaps
      modifies this
      ensures Valid() && DomainsFit(crossword, domains)
      ensures Shrunk(domains, old(domains))
      ensures KeepsSolutions(crossword, old(domains), domains)
      ensures !ok ==> exists v :: v in domains && domains[v] == {} && old(domains)[v] != {}
      ensures ok ==> forall v :: v in domains && domains[v] == {} ==> old(domains)[v] == {}
      ensures ok && arcs.None? ==> AllConsistent(crossword, domains)
      ensures ok && arcs.Some? ==>
        forall arc :: arc in crossword.overlaps && (arc in arcs.value || ArcConsistent(crossword, old(domains), arc)) ==>
          ArcConsistent(crossword, domains, arc)
      ensures AllConsistent(crossword, old(domains)) ==> ok && domains == old(domains)
    {
      var queue: seq<(Variable, Variable)>;
      if arcs.None? {
        queue := InitialQueue();
      } else {
        queue := arcs.value;
      }
      ghost var tracked := set arc | arc in crossword.overlaps && (arc in queue || ArcConsistent(crossword, domains, arc));
      if arcs.None? {
        AllArcsTracked(crossword, domains, queue);
      }
      KeepsSolutionsRefl(crossword, domains);
      ghost var stable := AllConsistent(crossword, domains);
      while queue != []
        invariant Valid() && PruneInv(crossword, old(domains), domains)
        invariant QueueInv(crossword, domains, queue, tracked)
        invariant stable ==> domains == old(domains)
        invariant EmptiedNone(old(domains), domains)
        decreases |Pairs(domains)|, |queue|
      {
        var x, y := queue[0].0, queue[0].1;
        ghost var q, d := queue, domains;
        queue := queue[1..];
        if stable {
          assert ArcConsistent(crossword, d, (x, y));
        }
        var revised := Revise(x, y);
        PruneStep(crossword, old(domains), d, x, y, domains);
        if revised {
          if |domains[x]| == 0 {
            return false;
          }
          ghost var q1 := queue;
          queue := EnqueueNeighbors(queue, x, y);
          QueueStep(crossword, d, x, y, domains, q, q1, queue, tracked);
        } else {
          QueueStep(crossword, d, x, y, domains, q, queue, queue, tracked);
        }
      }
      return true;
    }
 
    /** Appends `(z, x)` for every neighbour `z` of `x` other than `y`, in an arbitrary
        order. */
    method EnqueueNeighbors(queue: seq<(Variable, Variable)>, x: Variable, y: Variable)
      returns (q2: seq<(Variable, Variable)>)
      requires Valid()
      ensures |q2| >= |queue| && q2[..|queue|] == queue
      ensures forall arc :: arc in q2 ==> arc in queue || (arc.1 == x && arc.0 in Neighbors(crossword, x) - {y})
      ensures forall z :: z in Neighbors(crossword, x) - {y} ==> (z, x) in q2
      ensures |q2| == |queue| + |Neighbors(crossword, x) - {y}|
      ensures forall k :: |queue| <= k < |q2| ==> q2[k].1 == x && q2[k].0 in Neighbors(crossword, x) - {y}
      ensures forall z :: z in Neighbors(crossword, x) - {y} ==> exists k :: |queue| <= k < |q2| && q2[k] == (z, x)
    {
      var others := Neighbors(crossword, x) - {y};
      ghost var at;
      q2, at := AppendArcs(queue, x, others);
      ArcsAppendedMembers(queue, q2, x, others, at);
    }
 
    /** Whether every slot has a word. */
    method AssignmentComplete(a: Assignment) returns (r: bool)
      ensures r <==> forall v :: v in domains ==> v in a
    {
      var rest := domains.Keys;
      while rest != {}
        invariant rest <= domains.Keys
        invariant forall v :: v in domains.Keys - rest ==> v in a
        decreases rest
      {
        var v :| v in rest;
        if v !in a {
          return false;
        }
        rest := rest - {v};
      }
      return true;
    }

    /** Whether the assignment is consistent: the words are distinct, each has its slot's
        length, and crossing assigned slots agree on the shared letter. */
    method Consistent(a: Assignment) returns (r: bool)
      requires Valid() && a.Keys <= crossword.variables
      requires forall v :: v in a ==> WordFits(crossword, v, a[v])
      ensures r == IsConsistent(crossword, a)
    {
      InjectiveIff(a);
      ConsistentBySlots(crossword, a);
      if |a| != |a.Values| {
        return false;
      }
      var rest := a.Keys;
      while rest != {}
        invariant rest <= a.Keys
        invariant forall v :: v in a.Keys - rest ==> SlotOk(crossword, a, v)
        decreases rest
      {
        var v :| v in rest;
        var word := a[v];
        if v.length != |word| {
          return false;
        }
        var agrees := AgreesWithNeighbors(a, v);
        if !agrees {
          return false;
        }
        rest := rest - {v};
      }
      return true;
    }

    /** Whether the word of `v` agrees with the words of its assigned neighbours. */
    method AgreesWithNeighbors(a: Assignment, v: Variable) returns (r: bool)
      requires Valid() && v in a && |a[v]| == v.length
      requires forall u :: u in a ==> WordFits(crossword, u, a[u])
      ensures r <==> forall u :: u in a && u in Neighbors(crossword, v) ==> Agree(crossword, v, a[v], u, a[u])
    {
      var word := a[v];
      var ns := Neighbors(crossword, v);
      var nrest := ns;
      while nrest != {}
        invariant nrest <= ns
        invariant forall u :: u in ns - nrest && u in a ==> Agree(crossword, v, word, u, a[u])
        decreases nrest
      {
        var u :| u in nrest;
        if u in a {
          var o := crossword.overlaps[(v, u)].value;
          assert crossword.overlaps[(u, v)] == Swap(crossword.overlaps[(v, u)]);
          assert WordFits(crossword, u, a[u]);
          if word[o.0] != a[u][o.1] {
            return false;
          }
        }
        nrest := nrest - {u};
      }
      return true;
    }
 
    /** An unassigned slot with the fewest remaining words, ties broken by the most
        neighbours. */
    method SelectUnassignedVariable(a: Assignment) returns (v: Variable)
      requires Valid()
      requires exists u :: u in domains && u !in a
      ensures v in domains && v !in a
      ensures forall u :: u in domains && u !in a ==> NoWorse(crossword, domains, v, u)
    {
      var first :| first in domains && first !in a;
      v := first;
      var rest := domains.Keys - a.Keys - {first};
      while rest != {}
        invariant rest <= domains.Keys - a.Keys
        invariant v in domains && v !in a
        invariant forall u :: u in domains && u !in a && u !in rest ==> NoWorse(crossword, domains, v, u)
        decreases rest
      {
        var u :| u in rest;
        if |domains[u]| < |domains[v]|
           || (|domains[u]| == |domains[v]| && |Neighbors(crossword, u)| > |Neighbors(crossword, v)|) {
          v := u;
        }
        rest := rest - {u};
      }
    }

    /** The number of words of the slots `ns` that `w`, placed in `x`, rules out. */
    method CountConflicts(x: Variable, w: Word, ns: set<Variable>) returns (counter: nat)
      requires Valid() && ns <= Neighbors(crossword, x)
      requires DomainsFit(crossword, domains) && WordFits(crossword, x, w)
      ensures counter == |Conflicts(crossword, domains, x, ns, w)|
    {
      counter := 0;
      var rest := ns;
      while rest != {}
        invariant rest <= ns
        invariant counter == |Conflicts(crossword, domains, x, ns - rest, w)|
        decreases rest
      {
        var u :| u in rest;
        var n := CountSlotConflicts(x, w, u);
        ConflictsAddSlot(crossword, domains, x, ns - rest, u, w);
        assert ns - (rest - {u}) == (ns - rest) + {u};
        counter := counter + n;
        rest := rest - {u};
      }
      assert ns - rest == ns;
    }

    /** The number of words of slot `u` that `w`, placed in `x`, rules out. */
    method CountSlotConflicts(x: Variable, w: Word, u: Variable) returns (counter: nat)
      requires Valid() && u in Neighbors(crossword, x)
      requires DomainsFit(crossword, domains) && WordFits(crossword, x, w)
      ensures counter == |SlotConflicts(crossword, domains, x, u, w)|
    {
      var o := crossword.overlaps[(x, u)].value;
      assert crossword.overlaps[(u, x)] == Swap(crossword.overlaps[(x, u)]);
      counter := 0;
      ghost var done: set<(Variable, Word)> := {};
      var words := domains[u];
      var wrest := words;
      while wrest != {}
        invariant wrest <= words
        invariant done == set z | z in words - wrest && !Agree(crossword, x, w, u, z) :: (u, z)
        invariant counter == |done|
        decreases wrest
      {
        var z :| z in wrest;
        assert WordFits(crossword, u, z);
        if w[o.0] != z[o.1] {
          done := done + {(u, z)};
          counter := counter + 1;
        }
        wrest := wrest - {z};
      }
      assert words - wrest == words;
    }
 
    /** The words of the domain of `x`, fewest ruled-out neighbour words first, as the
        generator computes them: the words are collected in a map keyed by their cost, so
        of several words with the same cost only the last one visited is kept. */
    method OrderDomainValues(x: Variable, a: Assignment) returns (r: seq<Word>)
      requires Valid() && DomainsFit(crossword, domains) && x in domains
      ensures forall k :: 0 <= k < |r| ==> r[k] in domains[x]
      ensures forall k, l :: 0 <= k < l < |r| ==>
        Cost(crossword, domains, x, a, r[k]) < Cost(crossword, domains, x, a, r[l])
      ensures forall w :: w in domains[x] ==>
        exists k :: 0 <= k < |r| && Cost(crossword, domains, x, a, r[k]) == Cost(crossword, domains, x, a, w)
    {
      var ns := Neighbors(crossword, x) - a.Keys;
      var resultDict: map<nat, Word> := map[];
      var rest := domains[x];
      while rest != {}
        invariant rest <= domains[x]
        invariant forall c :: c in resultDict ==>
          resultDict[c] in domains[x] && Cost(crossword, domains, x, a, resultDict[c]) == c
        invariant forall w :: w in domains[x] && w !in rest ==> Cost(crossword, domains, x, a, w) in resultDict
        decreases rest
      {
        var w :| w in rest;
        var counter := CountConflicts(x, w, ns);
        resultDict := resultDict[counter := w];
        rest := rest - {w};
      }
      var ks;
      r, ks := ValuesByKey(resultDict);
      forall w | w in domains[x]
        ensures exists k :: 0 <= k < |r| && Cost(crossword, domains, x, a, r[k]) == Cost(crossword, domains, x, a, w)
      {
        var c := Cost(crossword, domains, x, a, w);
        var k :| 0 <= k < |ks| && ks[k] == c;
        assert Cost(crossword, domains, x, a, r[k]) == c;
      }
    }
 
    /** Backtracking search: extends `a` one slot at a time, choosing the slot by
        `SelectUnassignedVariable` and trying its words in `OrderDomainValues` order,
        keeping only consistent extensions. A complete `a` is returned as it is; any other
        result is a solution extending `a`. An unassigned slot with an empty domain makes
        the search fail. */
    method Backtrack(a: Assignment) returns (result: Option<Assignment>)
      requires Valid() && DomainsFit(crossword, domains)
      requires a.Keys <= crossword.variables && forall v :: v in a ==> WordFits(crossword, v, a[v])
      ensures (forall v :: v in domains ==> v in a) ==> result == Some(a)
      ensures result.Some? ==>
        (result.value == a && forall v :: v in domains ==> v in a) || SolutionFrom(crossword, domains, a, result.value)
      ensures (exists v :: v in domains && v !in a && domains[v] == {}) ==> result.None?
      decreases |domains.Keys - a.Keys|, 1
    {
      var complete := AssignmentComplete(a);
      if complete {
        return Some(a);
      }
      var v := SelectUnassignedVariable(a);
      var words := OrderDomainValues(v, a);
      result := TryWords(a, v, words);
      if result.Some? {
        forall u | u in domains && u !in a
          ensures domains[u] != {}
        {
          assert NoWorse(crossword, domains, v, u);
        }
      }
    }

    /** The candidate loop of `Backtrack`: tries the words for slot `v` in order and
        returns the first search result found from a consistent extension. */
    method TryWords(a: Assignment, v: Variable, words: seq<Word>) returns (result: Option<Assignment>)
      requires Valid() && DomainsFit(crossword, domains)
      requires a.Keys <= crossword.variables && forall u :: u in a ==> WordFits(crossword, u, a[u])
      requires v in domains && v !in a && forall k :: 0 <= k < |words| ==> words[k] in domains[v]
      ensures result.Some? ==> SolutionFrom(crossword, domains, a, result.value) && domains[v] != {}
      decreases |domains.Keys - a.Keys|, 0
    {
      var k := 0;
      // Only soundness is claimed, so the loop needs no invariant beyond its bounds: each
      // result comes straight from a consistent extension (`FoundSolution`).
      while k < |words|
        invariant 0 <= k <= |words|
      {
        var w := words[k];
        var next := a[v := w];
        assert domains.Keys - next.Keys < domains.Keys - a.Keys by {
          assert v in domains.Keys - a.Keys && v !in domains.Keys - next.Keys;
        }
        var ok := Consistent(next);
        if ok {
          var found := Backtrack(next);
          if found.Some? {
            FoundSolution(crossword, domains, a, v, w, found.value);
            return found;
          }
        }
        k := k + 1;
      }
      return None;
    }

    /** Prunes the domains (node consistency, then AC-3, whose outcome is not used) and
        searches from the empty assignment. Pruning loses no solution and leaves the
        domains node consistent, and arc consistent unless AC-3 emptied a domain; a result
        is a solution of the original domains; a domain left empty by pruning makes the
        search fail. */
    method Solve() returns (result: Option<Assignment>)
      requires Valid()
      modifies this
      ensures Valid() && Shrunk(domains, old(domains)) && KeepsSolutions(crossword, old(domains), domains)
      ensures result.Some? ==> Solution(crossword, old(domains), result.value)
      ensures (exists v :: v in domains && domains[v] == {}) ==> result.None?
      ensures NodeConsistent(domains)
      ensures AllConsistent(crossword, domains) || exists v :: v in domains && domains[v] == {}
    {
      NodeFilterCorrect(crossword, domains);
      EnforceNodeConsistency();
      ghost var filtered := domains;
      var ok := Ac3(None);
      assert forall v, w :: v in domains && w in domains[v] ==> w in filtered[v];
      KeepsSolutionsTrans(crossword, old(domains), filtered, domains);
      result := Backtrack(map[]);
      if result.Some? {
        SearchResult(crossword, old(domains), domains, result.value);
      }
    }
  }
}
