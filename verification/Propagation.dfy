/**
 Constraint propagation. When a removal leaves a cell one value, that value is removed from all peers of
 the cell, which may in turn leave further cells one value, and so on. The functions below give the grid
 that the mutually recursive methods of the source leave behind; the lemmas say what that grid means.
 */
module Propagation {
  import opened Geometry
  import opened Candidates

  /** Takes a value away from a cell, and propagates if that leaves the cell a single value. */
  function Remove(n: Dimension, g: Board, c: Cell, v: Value): (r: Board)
    requires WellFormed(n, g) && InGrid(n, c)
    ensures Below(r, g) && v !in r[c]
    decreases Pairs(g), 0, 0
  {
    if v !in g[c] then g
    else
      RemovalShrinks(g, c, v);
      var h := g[c := g[c] - {v}];
      if |h[c]| == 1 then RemoveRelated(n, h, c, Only(h[c])) else h
  }

  function RemoveRelated(n: Dimension, g: Board, c: Cell, v: Value): (r: Board)
    requires WellFormed(n, g) && InGrid(n, c)
    ensures Below(r, g)
    decreases Pairs(g), 2, 0
  {
    RelatedExact(n, c);
    RemoveFromAll(n, g, Related(n, c), v)
  }

  function RemoveFromAll(n: Dimension, g: Board, cells: seq<Cell>, v: Value): (r: Board)
    requires WellFormed(n, g) && forall d :: d in cells ==> InGrid(n, d)
    ensures Below(r, g)
    ensures forall d :: d in cells ==> v !in r[d]
    decreases Pairs(g), 1, |cells|
  {
    if cells == [] then g
    else
      var h := Remove(n, g, cells[0], v);
      BelowPairs(h, g);
      RemoveFromAll(n, h, cells[1..], v)
  }

  /** Puts a value in a cell, whether or not it was still a candidate there, and propagates it. */
  function Place(n: Dimension, g: Board, c: Cell, v: Value): (r: Board)
    requires WellFormed(n, g) && InGrid(n, c)
    ensures WellFormed(n, r) && Below(r, g[c := {v}])
  {
    RemoveRelated(n, g[c := {v}], c, v)
  }

  lemma RemoveFromAllSplit(n: Dimension, g: Board, a: seq<Cell>, b: seq<Cell>, v: Value)
    requires WellFormed(n, g)
    requires forall d :: d in a + b ==> InGrid(n, d)
    ensures (forall d :: d in a ==> InGrid(n, d)) && (forall d :: d in b ==> InGrid(n, d))
    ensures RemoveFromAll(n, g, a + b, v) == RemoveFromAll(n, RemoveFromAll(n, g, a, v), b, v)
    decreases |a|
  {
    assert forall d :: d in a + b <==> d in a || d in b;
    if a == [] {
      assert a + b == b;
    } else {
      assert a + b == [a[0]] + (a[1..] + b);
      assert (a + b)[1..] == a[1..] + b;
      assert forall d :: d in a[1..] + b ==> d in a + b;
      RemoveFromAllSplit(n, Remove(n, g, a[0], v), a[1..], b, v);
    }
  }

  lemma RemoveUnfold(n: Dimension, g: Board, c: Cell, v: Value)
    requires WellFormed(n, g) && InGrid(n, c) && v in g[c]
    ensures var h := g[c := g[c] - {v}];
            && ((forall w :: h[c] != {w}) ==> Remove(n, g, c, v) == h)
            && (forall w :: h[c] == {w} ==> Remove(n, g, c, v) == RemoveRelated(n, h, c, w))
  {
    var h := g[c := g[c] - {v}];
    if |h[c]| == 1 {
      assert h[c] == {Only(h[c])};
    }
  }

  lemma RemoveFromAllStep(n: Dimension, g: Board, cells: seq<Cell>, i: nat, v: Value)
    requires WellFormed(n, g) && i < |cells| && forall d :: d in cells ==> InGrid(n, d)
    ensures RemoveFromAll(n, g, cells[i..], v)
            == RemoveFromAll(n, Remove(n, g, cells[i], v), cells[i + 1..], v)
  {
    assert cells[i..][1..] == cells[i + 1..];
  }

  lemma RemoveFromNone(n: Dimension, g: Board, cells: seq<Cell>, v: Value)
    requires WellFormed(n, g)
    ensures RemoveFromAll(n, g, cells[|cells|..], v) == g
    ensures cells[0..] == cells
  {
  }

  lemma RemoveNext(n: Dimension, g: Board, h: Board, cells: seq<Cell>, i: nat, next: nat, v: Value)
    requires WellFormed(n, g) && i < |cells| && next == i + 1 && forall d :: d in cells ==> InGrid(n, d)
    requires h == Remove(n, g, cells[i], v)
    ensures Below(h, g) && WellFormed(n, h)
    ensures RemoveFromAll(n, g, cells[i..], v) == RemoveFromAll(n, h, cells[next..], v)
  {
    RemoveFromAllStep(n, g, cells, i, v);
  }

  // ----- peer consistency is broken inside the cascade and restored at its end

  /** Peer consistency between the cells whose propagation is not still under way. */
  predicate ConsistentExcept(n: Dimension, g: Board, pending: set<Cell>) {
    forall a, b, w :: a in g && b in g && Peers(n, a, b) && a !in pending && b !in pending && w in g[a] && w in g[b]
                      ==> |g[a]| != 1
  }

  lemma {:induction false} RemoveKeepsConsistency(n: Dimension, g: Board, c: Cell, v: Value, pending: set<Cell>)
    requires WellFormed(n, g) && InGrid(n, c) && ConsistentExcept(n, g, pending)
    ensures ConsistentExcept(n, Remove(n, g, c, v), pending)
    decreases Pairs(g), 0, 0
  {
    if v in g[c] {
      RemovalShrinks(g, c, v);
      var h := g[c := g[c] - {v}];
      assert ConsistentExcept(n, h, pending + {c});
      if |h[c]| == 1 {
        RemoveRelatedConsistent(n, h, c, Only(h[c]), pending + {c});
      }
    }
  }

  lemma {:induction false} RemoveFromAllKeepsConsistency(
      n: Dimension, g: Board, cells: seq<Cell>, v: Value, pending: set<Cell>)
    requires WellFormed(n, g) && (forall d :: d in cells ==> InGrid(n, d)) && ConsistentExcept(n, g, pending)
    ensures ConsistentExcept(n, RemoveFromAll(n, g, cells, v), pending)
    decreases Pairs(g), 1, |cells|
  {
    if cells != [] {
      var h := Remove(n, g, cells[0], v);
      BelowPairs(h, g);
      RemoveKeepsConsistency(n, g, cells[0], v, pending);
      RemoveFromAllKeepsConsistency(n, h, cells[1..], v, pending);
    }
  }

  /** Once a pending cell's value has been taken from all its peers, the cell is no longer pending. */
  lemma {:induction false} RemoveRelatedConsistent(n: Dimension, g: Board, c: Cell, v: Value, pending: set<Cell>)
    requires WellFormed(n, g) && InGrid(n, c) && g[c] <= {v} && ConsistentExcept(n, g, pending)
    ensures ConsistentExcept(n, RemoveRelated(n, g, c, v), pending - {c})
    decreases Pairs(g), 2, 0
  {
    hide RemoveFromAll, Related, SectorOf, Side;
    RelatedExact(n, c);
    RemoveFromAllKeepsConsistency(n, g, Related(n, c), v, pending);
    var r := RemoveRelated(n, g, c, v);
    assert r[c] <= {v};
    assert forall d :: Peers(n, c, d) || Peers(n, d, c) ==> v !in r[d];
    forall a, b, w | a in r && b in r && Peers(n, a, b) && a !in pending - {c} && b !in pending - {c}
                     && w in r[a] && w in r[b]
      ensures |r[a]| != 1
    {
      assert a != c && b != c;
    }
  }

  /** Placing a value keeps a grid peer consistent, even one the cell no longer had among its candidates. */
  lemma PlaceConsistent(n: Dimension, g: Board, c: Cell, v: Value)
    requires WellFormed(n, g) && InGrid(n, c) && PeerConsistent(n, g)
    ensures PeerConsistent(n, Place(n, g, c, v))
  {
    var h := g[c := {v}];
    assert ConsistentExcept(n, h, {c});
    RemoveRelatedConsistent(n, h, c, v, {c});
    assert {c} - {c} == {};
  }

  // ----- nothing that could still be part of a consistent grid is ever removed

  /** A grid in which every cell has a candidate and no propagation is outstanding. */
  predicate Settled(n: Dimension, k: Board) {
    WellFormed(n, k) && Possible(k) && PeerConsistent(n, k)
  }

  lemma {:induction false} RemoveKeepsSettled(n: Dimension, k: Board, g: Board, c: Cell, v: Value)
    requires WellFormed(n, g) && InGrid(n, c) && Settled(n, k) && Below(k, g) && v !in k[c]
    ensures Below(k, Remove(n, g, c, v))
    decreases Pairs(g), 0, 0
  {
    if v in g[c] {
      RemovalShrinks(g, c, v);
      var h := g[c := g[c] - {v}];
      if |h[c]| == 1 {
        SubsetOfSingleton(k[c], Only(h[c]));
        RemoveRelatedKeepsSettled(n, k, h, c, Only(h[c]));
      }
    }
  }

  lemma {:induction false} RemoveFromAllKeepsSettled(n: Dimension, k: Board, g: Board, cells: seq<Cell>, v: Value)
    requires WellFormed(n, g) && Settled(n, k) && Below(k, g)
    requires forall d :: d in cells ==> InGrid(n, d) && v !in k[d]
    ensures Below(k, RemoveFromAll(n, g, cells, v))
    decreases Pairs(g), 1, |cells|
  {
    if cells != [] {
      var h := Remove(n, g, cells[0], v);
      BelowPairs(h, g);
      RemoveKeepsSettled(n, k, g, cells[0], v);
      RemoveFromAllKeepsSettled(n, k, h, cells[1..], v);
    }
  }

  /** The cascade from a cell never removes anything that a settled grid with that value in the cell uses. */
  lemma {:induction false} RemoveRelatedKeepsSettled(n: Dimension, k: Board, g: Board, c: Cell, v: Value)
    requires WellFormed(n, g) && InGrid(n, c) && Settled(n, k) && Below(k, g) && k[c] == {v}
    ensures Below(k, RemoveRelated(n, g, c, v))
    decreases Pairs(g), 2, 0
  {
    RelatedExact(n, c);
    forall d | d in Related(n, c)
      ensures InGrid(n, d) && v !in k[d]
    {
      assert Peers(n, c, d) && v in k[c];
    }
    RemoveFromAllKeepsSettled(n, k, g, Related(n, c), v);
  }

  lemma PlaceKeepsSettled(n: Dimension, k: Board, g: Board, c: Cell, v: Value)
    requires WellFormed(n, g) && InGrid(n, c) && Settled(n, k) && Below(k, g) && k[c] == {v}
    ensures Below(k, Place(n, g, c, v))
  {
    RemoveRelatedKeepsSettled(n, k, g[c := {v}], c, v);
  }

  // ----- nothing is removed without a reason

  /** A candidate has a reason to go if a peer of the cell has no other candidate than that one. */
  ghost predicate Excluded(n: Dimension, g: Board, d: Cell, w: Value) {
    exists e :: e in g && Peers(n, e, d) && g[e] <= {w}
  }

  /** Whatever the second grid lacks of the first has a reason in the second. */
  ghost predicate Justified(n: Dimension, g: Board, r: Board) {
    Below(r, g) && forall d, w :: d in g && w in g[d] && w !in r[d] ==> Excluded(n, r, d, w)
  }

  lemma JustifiedTransitive(n: Dimension, g: Board, h: Board, r: Board)
    requires Justified(n, g, h) && Justified(n, h, r)
    ensures Justified(n, g, r)
  {
    hide Peers;
    forall d, w | d in g && w in g[d] && w !in r[d]
      ensures Excluded(n, r, d, w)
    {
      if w !in h[d] {
        var e :| e in h && Peers(n, e, d) && h[e] <= {w};
        assert r[e] <= h[e];
      }
    }
  }

  lemma FirstRemoval(n: Dimension, g: Board, c: Cell, v: Value, e: Cell)
    requires WellFormed(n, g) && Peers(n, e, c) && g[e] <= {v}
    ensures c in g && e in g && Justified(n, g, g[c := g[c] - {v}])
  {
    var r := g[c := g[c] - {v}];
    forall d, w | d in g && w in g[d] && w !in r[d]
      ensures Excluded(n, r, d, w)
    {
      assert d == c && w == v && r[e] <= {v};
    }
  }

  lemma {:induction false} RemoveJustified(n: Dimension, g: Board, c: Cell, v: Value, e: Cell)
    requires WellFormed(n, g) && InGrid(n, c) && Peers(n, e, c) && g[e] <= {v}
    ensures Justified(n, g, Remove(n, g, c, v))
    decreases Pairs(g), 0, 0
  {
    hide RemoveRelated, Peers;
    if v in g[c] {
      RemovalShrinks(g, c, v);
      FirstRemoval(n, g, c, v, e);
      var h := g[c := g[c] - {v}];
      if |h[c]| == 1 {
        RemoveRelatedJustified(n, h, c, Only(h[c]));
        JustifiedTransitive(n, g, h, RemoveRelated(n, h, c, Only(h[c])));
      }
    }
  }

  lemma {:induction false} RemoveFromAllJustified(n: Dimension, g: Board, cells: seq<Cell>, v: Value, e: Cell)
    requires WellFormed(n, g) && (forall d :: d in cells ==> InGrid(n, d) && Peers(n, e, d)) && e in g && g[e] <= {v}
    ensures Justified(n, g, RemoveFromAll(n, g, cells, v))
    decreases Pairs(g), 1, |cells|
  {
    hide Remove, Peers;
    if cells != [] {
      var h := Remove(n, g, cells[0], v);
      BelowPairs(h, g);
      RemoveJustified(n, g, cells[0], v, e);
      RemoveFromAllJustified(n, h, cells[1..], v, e);
      JustifiedTransitive(n, g, h, RemoveFromAll(n, h, cells[1..], v));
    }
  }

  /** The cascade removes a candidate only if a peer of its cell is left with nothing else, possible or not. */
  lemma {:induction false} RemoveRelatedJustified(n: Dimension, g: Board, c: Cell, v: Value)
    requires WellFormed(n, g) && InGrid(n, c) && g[c] <= {v}
    ensures Justified(n, g, RemoveRelated(n, g, c, v))
    decreases Pairs(g), 2, 0
  {
    hide RemoveFromAll, Related;
    RelatedExact(n, c);
    RemoveFromAllJustified(n, g, Related(n, c), v, c);
  }

  // ----- solutions

  /** The grid that shows an assignment: each cell has its value as only candidate. */
  function Shown(s: Assignment): Board {
    map c | c in s :: {s[c]}
  }

  lemma ShownSettled(n: Dimension, s: Assignment)
    requires s.Keys == CellSet(n) && PeersDiffer(n, s)
    ensures Settled(n, Shown(s))
  {
  }

  /** Placing a candidate selects exactly the completions that have it in that cell. */
  lemma PlaceSelectsCompletions(n: Dimension, g: Board, c: Cell, v: Value, s: Assignment)
    requires WellFormed(n, g) && InGrid(n, c) && v in g[c]
    ensures Completes(n, s, Place(n, g, c, v)) <==> Completes(n, s, g) && s[c] == v
  {
    if Completes(n, s, g) && s[c] == v {
      ShownSettled(n, s);
      PlaceKeepsSettled(n, Shown(s), g, c, v);
      forall d | d in s
        ensures s[d] in Place(n, g, c, v)[d]
      {
        assert s[d] in Shown(s)[d];
      }
    }
  }

  /** A complete grid that is peer consistent shows an assignment without conflicts. */
  lemma CompleteGridIsSolution(n: Dimension, g: Board) returns (s: Assignment)
    requires WellFormed(n, g) && PeerConsistent(n, g) && Complete(g)
    ensures g == Shown(s) && Completes(n, s, g)
    ensures forall t :: Completes(n, t, g) <==> t == s
  {
    s := map c | c in g :: Only(g[c]);
    forall a, b | a in s && b in s && Peers(n, a, b)
      ensures s[a] != s[b]
    {
      assert s[a] in g[a];
    }
    forall t | Completes(n, t, g)
      ensures t == s
    {
      assert forall c :: c in t ==> t[c] in g[c];
    }
  }
}
