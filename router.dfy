/**
 * The blank router. From the blank, cells are labelled level by level with their distance;
 * frozen cells carry the sentinel label `m + n` from the start, so the search goes around them
 * until it reaches that level, where it expands from them too. The router then picks the
 * destination with the smallest (label, index) and walks back along decreasing labels.
 */
module Router {
  import opened Wrappers
  import opened Lists
  import opened Grid

  /** A frozen cell other than the blank's own: it starts with the sentinel label. */
  predicate Prefrozen(b: int, fs: seq<int>, q: int)
  {
    q in fs && q != b
  }

  /** The blank is labelled 0 and every other frozen cell carries the sentinel. */
  predicate Seeded(h: seq<Option<nat>>, b: int, fs: seq<int>, top: nat)
  {
    0 <= b < |h| && h[b] == Some(0) &&
    forall q :: 0 <= q < |h| && Prefrozen(b, fs, q) ==> h[q] == Some(top)
  }

  /** Every labelled cell the search reached has a neighbour one label lower. */
  predicate Descends(nb: seq<seq<int>>, h: seq<Option<nat>>, b: int, fs: seq<int>)
  {
    |h| == |nb| &&
    forall q :: 0 <= q < |h| && q != b && !Prefrozen(b, fs, q) && h[q].Some? ==>
      h[q].value >= 1 && exists r :: r in nb[q] && 0 <= r < |h| && h[r] == Some(h[q].value - 1)
  }

  /** All neighbours of `q` are labelled, at most one more than `q`, unless they are frozen. */
  predicate Expanded(nb: seq<seq<int>>, h: seq<Option<nat>>, b: int, fs: seq<int>, q: int)
    requires |h| == |nb| && 0 <= q < |h| && h[q].Some?
  {
    forall r :: r in nb[q] ==>
      0 <= r < |h| && h[r].Some? && (h[r].value <= h[q].value + 1 || Prefrozen(b, fs, r))
  }

  predicate ClosedBelow(nb: seq<seq<int>>, h: seq<Option<nat>>, b: int, fs: seq<int>, d: nat)
  {
    |h| == |nb| &&
    forall q :: 0 <= q < |h| && h[q].Some? && h[q].value < d ==> Expanded(nb, h, b, fs, q)
  }

  /** No cell the search labelled has a label above `d`. */
  predicate Bounded(h: seq<Option<nat>>, b: int, fs: seq<int>, d: nat)
  {
    forall q :: 0 <= q < |h| && !Prefrozen(b, fs, q) && h[q].Some? ==> h[q].value <= d
  }

  /** Labels are only ever added, never changed. */
  predicate Grows(h0: seq<Option<nat>>, h: seq<Option<nat>>)
  {
    |h| == |h0| && forall q :: 0 <= q < |h| && h0[q].Some? ==> h[q] == h0[q]
  }

  /** The facts that hold of the labels between two levels of the search. */
  predicate Labelling(nb: seq<seq<int>>, h: seq<Option<nat>>, b: int, fs: seq<int>, top: nat)
  {
    |h| == |nb| && Seeded(h, b, fs, top) && Descends(nb, h, b, fs)
  }

  lemma ExpandedGrows(nb: seq<seq<int>>, h0: seq<Option<nat>>, h: seq<Option<nat>>, b: int, fs: seq<int>, q: int)
    requires |h0| == |nb| && 0 <= q < |h0| && h0[q].Some? && Grows(h0, h) && Expanded(nb, h0, b, fs, q)
    ensures h[q] == h0[q] && Expanded(nb, h, b, fs, q)
  {
  }

  /** Labelling an unlabelled neighbour `q` of `p` one more than `p` keeps every cell descending. */
  lemma DescendsStep(nb: seq<seq<int>>, h: seq<Option<nat>>, b: int, fs: seq<int>, p: nat, q: int, v: nat)
    requires Symmetric(nb) && |h| == |nb| && Descends(nb, h, b, fs)
    requires p < |h| && h[p] == Some(v) && q in nb[p] && 0 <= q < |h| && h[q].None?
    ensures Descends(nb, h[q := Some(v + 1)], b, fs)
  {
    var h' := h[q := Some(v + 1)];
    forall k | 0 <= k < |h'| && k != b && !Prefrozen(b, fs, k) && h'[k].Some?
      ensures h'[k].value >= 1 && exists r :: r in nb[k] && 0 <= r < |h'| && h'[r] == Some(h'[k].value - 1)
    {
      if k == q {
        SymmetricAt(nb, p, q);
        assert p in nb[q] && h'[p] == Some(v);
      } else {
        var r :| r in nb[k] && 0 <= r < |h| && h[r] == Some(h[k].value - 1);
        assert h'[r] == h[r];
      }
    }
  }

  /** The labels part way through expanding level `d`, starting from `h0`. */
  predicate Stage(nb: seq<seq<int>>, top: nat, h0: seq<Option<nat>>, h: seq<Option<nat>>, b: int, fs: seq<int>, d: nat)
  {
    Labelling(nb, h, b, fs, top) && Bounded(h, b, fs, d + 1) && Grows(h0, h) &&
    forall k :: 0 <= k < |h| && h0[k].None? && h[k].Some? ==> h[k] == Some(d + 1)
  }

  /** Labelling an unlabelled cell `q` with `d + 1` keeps the seeds, the bound and the growth. */
  lemma LabelFrame(top: nat, h0: seq<Option<nat>>, h: seq<Option<nat>>, b: int, fs: seq<int>, d: nat, q: int)
    requires Seeded(h, b, fs, top) && Bounded(h, b, fs, d + 1) && Grows(h0, h)
    requires forall k :: 0 <= k < |h| && h0[k].None? && h[k].Some? ==> h[k] == Some(d + 1)
    requires 0 <= q < |h| && h[q].None?
    ensures var h' := h[q := Some(d + 1)];
      Seeded(h', b, fs, top) && Bounded(h', b, fs, d + 1) && Grows(h0, h') && Grows(h, h') &&
      (forall k :: 0 <= k < |h'| && h0[k].None? && h'[k].Some? ==> h'[k] == Some(d + 1))
  {
  }

  /** Labelling an unlabelled cell removes one unlabelled cell and adds one label `d + 1`. */
  lemma LabelCount(h: seq<Option<nat>>, d: nat, q: int)
    requires 0 <= q < |h| && h[q].None?
    ensures multiset(h[q := Some(d + 1)])[Some(d + 1)] > 0
    ensures multiset(h[q := Some(d + 1)])[None] < multiset(h)[None]
  {
    assert multiset(h[q := Some(d + 1)]) == multiset(h) - multiset{None} + multiset{Some(d + 1)};
  }

  /** Labelling an unlabelled neighbour `q` of `p`, a cell at level `d`, with `d + 1`. */
  lemma LabelStep(nb: seq<seq<int>>, top: nat, h0: seq<Option<nat>>, h: seq<Option<nat>>, b: int, fs: seq<int>,
                  p: nat, d: nat, q: int)
    requires Symmetric(nb) && Stage(nb, top, h0, h, b, fs, d)
    requires p < |h| && h[p] == Some(d) && q in nb[p] && 0 <= q < |h| && h[q].None?
    ensures Stage(nb, top, h0, h[q := Some(d + 1)], b, fs, d) && Grows(h, h[q := Some(d + 1)])
    ensures multiset(h[q := Some(d + 1)])[Some(d + 1)] > 0
    ensures multiset(h[q := Some(d + 1)])[None] < multiset(h)[None]
  {
    DescendsStep(nb, h, b, fs, p, q, d);
    LabelFrame(top, h0, h, b, fs, d, q);
    LabelCount(h, d, q);
  }

  /** The first `j` neighbours in `adj` are labelled, at most `d + 1` unless frozen. */
  predicate Covered(h: seq<Option<nat>>, adj: seq<int>, j: nat, b: int, fs: seq<int>, d: nat)
  {
    j <= |adj| &&
    forall k :: 0 <= k < j ==>
      0 <= adj[k] < |h| && h[adj[k]].Some? && (h[adj[k]].value <= d + 1 || Prefrozen(b, fs, adj[k]))
  }

  /** Whether a level labelled anything new, witnessed by the counts of labels. */
  predicate Progress(h0: seq<Option<nat>>, h: seq<Option<nat>>, grew: bool, d: nat)
  {
    (grew ==> multiset(h)[Some(d + 1)] > 0 && multiset(h)[None] < multiset(h0)[None]) &&
    (!grew ==> h == h0)
  }

  /** One turn of the loop over the neighbours of `p`. */
  lemma ExpandStep(nb: seq<seq<int>>, top: nat, h0: seq<Option<nat>>, h: seq<Option<nat>>, b: int, fs: seq<int>,
                   p: nat, d: nat, j: nat, grew: bool)
    requires Symmetric(nb) && Stage(nb, top, h0, h, b, fs, d) && p < |h| && h[p] == Some(d)
    requires j < |nb[p]| && Covered(h, nb[p], j, b, fs, d) && Progress(h0, h, grew, d)
    ensures var q := nb[p][j];
      var h' := if h[q] == None then h[q := Some(d + 1)] else h;
      Stage(nb, top, h0, h', b, fs, d) && h'[p] == Some(d) && Covered(h', nb[p], j + 1, b, fs, d) &&
      Progress(h0, h', grew || h[q] == None, d)
  {
    var q := nb[p][j];
    assert 0 <= q < |h| && q in nb[p];
    if h[q] == None {
      var h' := h[q := Some(d + 1)];
      LabelStep(nb, top, h0, h, b, fs, p, d, q);
      CoveredGrows(h, h', nb[p], j, b, fs, d);
      CoveredNext(h', nb[p], j, b, fs, d);
    } else {
      assert Bounded(h, b, fs, d + 1);
      CoveredNext(h, nb[p], j, b, fs, d);
    }
  }

  /** Labels that are only ever added keep the neighbours covered. */
  lemma CoveredGrows(h: seq<Option<nat>>, h': seq<Option<nat>>, adj: seq<int>, j: nat, b: int, fs: seq<int>, d: nat)
    requires Covered(h, adj, j, b, fs, d) && Grows(h, h')
    ensures Covered(h', adj, j, b, fs, d)
  {
  }

  /** Neighbour `j`, once labelled within the bound, extends the covered part by one. */
  lemma CoveredNext(h: seq<Option<nat>>, adj: seq<int>, j: nat, b: int, fs: seq<int>, d: nat)
    requires Covered(h, adj, j, b, fs, d) && j < |adj| && 0 <= adj[j] < |h| && h[adj[j]].Some?
    requires Bounded(h, b, fs, d + 1)
    ensures Covered(h, adj, j + 1, b, fs, d)
  {
    assert h[adj[j]].value <= d + 1 || Prefrozen(b, fs, adj[j]);
  }

  /** Labels every unlabelled neighbour of `p`, a cell at level `d`, with `d + 1`. */
  method Expand(nb: seq<seq<int>>, top: nat, h0: seq<Option<nat>>, b: int, fs: seq<int>, p: nat, d: nat)
    returns (h: seq<Option<nat>>, grew: bool)
    requires Symmetric(nb) && Stage(nb, top, h0, h0, b, fs, d)
    requires p < |h0| && h0[p] == Some(d)
    ensures Stage(nb, top, h0, h, b, fs, d) && Expanded(nb, h, b, fs, p)
    ensures Progress(h0, h, grew, d)
  {
    var adj := nb[p];
    h, grew := h0, false;
    var j := 0;
    while j < |adj|
      invariant j <= |adj| && |h| == |nb| && h[p] == Some(d)
      invariant Stage(nb, top, h0, h, b, fs, d) && Covered(h, adj, j, b, fs, d) && Progress(h0, h, grew, d)
    {
      ExpandStep(nb, top, h0, h, b, fs, p, d, j, grew);
      var q := adj[j];
      if h[q] == None {
        h := h[q := Some(d + 1)];
        grew := true;
      }
      j := j + 1;
    }
    assert forall r :: r in nb[p] ==> exists k :: 0 <= k < |adj| && adj[k] == r;
  }

  lemma StageTrans(nb: seq<seq<int>>, top: nat, h0: seq<Option<nat>>, h1: seq<Option<nat>>, h: seq<Option<nat>>,
                   b: int, fs: seq<int>, d: nat, g1: bool, g: bool)
    requires Stage(nb, top, h0, h1, b, fs, d) && Stage(nb, top, h1, h, b, fs, d)
    requires Progress(h0, h1, g1, d) && Progress(h1, h, g, d)
    ensures Stage(nb, top, h0, h, b, fs, d) && Progress(h0, h, g1 || g, d)
  {
  }

  /** Expansions stay valid as labels are added. */
  lemma ClosedGrows(nb: seq<seq<int>>, h0: seq<Option<nat>>, h: seq<Option<nat>>, b: int, fs: seq<int>, d: nat, p: nat)
    requires |h0| == |nb| && Grows(h0, h) && ClosedBelow(nb, h0, b, fs, d)
    requires forall q :: 0 <= q < |h| && h0[q].None? && h[q].Some? ==> h[q] == Some(d + 1)
    requires forall q :: 0 <= q < p && q < |h0| && h0[q] == Some(d) ==> Expanded(nb, h0, b, fs, q)
    ensures ClosedBelow(nb, h, b, fs, d)
    ensures forall q :: 0 <= q < p && q < |h| && h[q] == Some(d) ==> Expanded(nb, h, b, fs, q)
  {
    forall q | 0 <= q < |h| && h[q].Some? && (h[q].value < d || (q < p && h[q] == Some(d)))
      ensures Expanded(nb, h, b, fs, q)
    {
      ExpandedGrows(nb, h0, h, b, fs, q);
    }
  }

  /** The labels after the first `p` cells of a pass over level `d` that started from `h0`. */
  predicate Swept(nb: seq<seq<int>>, top: nat, h0: seq<Option<nat>>, h: seq<Option<nat>>, b: int, fs: seq<int>,
                  d: nat, p: nat, grew: bool)
  {
    p <= |h| == |nb| &&
    Stage(nb, top, h0, h, b, fs, d) && Progress(h0, h, grew, d) && ClosedBelow(nb, h, b, fs, d) &&
    forall q :: 0 <= q < p && h[q] == Some(d) ==> Expanded(nb, h, b, fs, q)
  }

  /** Cell `p` of the pass, once expanded (or skipped, when it is not at level `d`). */
  lemma SweepStep(nb: seq<seq<int>>, top: nat, h0: seq<Option<nat>>, h: seq<Option<nat>>, h': seq<Option<nat>>,
                  b: int, fs: seq<int>, d: nat, p: nat, grew: bool, g: bool)
    requires Swept(nb, top, h0, h, b, fs, d, p, grew) && p < |h|
    requires h[p] == Some(d) ==> Stage(nb, top, h, h', b, fs, d) && Expanded(nb, h', b, fs, p) && Progress(h, h', g, d)
    requires h[p] != Some(d) ==> h' == h && !g
    ensures Swept(nb, top, h0, h', b, fs, d, p + 1, grew || g)
  {
    if h[p] == Some(d) {
      StageTrans(nb, top, h0, h, h', b, fs, d, grew, g);
      ClosedGrows(nb, h, h', b, fs, d, p);
    }
  }

  /** One pass over all cells, expanding those at level `d`. */
  method Sweep(nb: seq<seq<int>>, top: nat, h0: seq<Option<nat>>, b: int, fs: seq<int>, d: nat)
    returns (h: seq<Option<nat>>, grew: bool)
    requires Symmetric(nb) && Labelling(nb, h0, b, fs, top) && Bounded(h0, b, fs, d) && ClosedBelow(nb, h0, b, fs, d)
    ensures Stage(nb, top, h0, h, b, fs, d) && ClosedBelow(nb, h, b, fs, d + 1) && Progress(h0, h, grew, d)
  {
    h, grew := h0, false;
    var p := 0;
    while p < |h|
      invariant Swept(nb, top, h0, h, b, fs, d, p, grew)
    {
      var h', g := h, false;
      if h[p] == Some(d) {
        h', g := Expand(nb, top, h, b, fs, p, d);
      }
      SweepStep(nb, top, h0, h, h', b, fs, d, p, grew, g);
      h, grew := h', grew || g;
      p := p + 1;
    }
  }

  /** After a pass, the count that bounds the remaining passes has gone down. */
  lemma PassShrinks(h0: seq<Option<nat>>, h: seq<Option<nat>>, b: int, fs: seq<int>, top: nat, d: nat, grew: bool)
    requires Seeded(h0, b, fs, top) && Bounded(h0, b, fs, d) && Progress(h0, h, grew, d)
    requires multiset(h0)[Some(d)] > 0
    ensures multiset(h)[None] + (if multiset(h)[Some(d + 1)] > 0 then 1 else 0) + (if d + 1 < top then 1 else 0)
          < multiset(h0)[None] + (if multiset(h0)[Some(d)] > 0 then 1 else 0) + (if d < top then 1 else 0)
  {
    if !grew && multiset(h)[Some(d + 1)] > 0 {
      assert Some(d + 1) in h;
      var q :| 0 <= q < |h| && h[q] == Some(d + 1);
      assert Prefrozen(b, fs, q);
    }
  }

  /** When no cell is at level `d`, every cell the search labelled has been expanded. */
  lemma Finished(nb: seq<seq<int>>, h: seq<Option<nat>>, b: int, fs: seq<int>, d: nat)
    requires |h| == |nb| && Bounded(h, b, fs, d) && ClosedBelow(nb, h, b, fs, d) && multiset(h)[Some(d)] == 0
    ensures forall q :: 0 <= q < |h| && h[q].Some? && !Prefrozen(b, fs, q) ==> Expanded(nb, h, b, fs, q)
  {
    forall q | 0 <= q < |h| && h[q].Some? && !Prefrozen(b, fs, q) ensures Expanded(nb, h, b, fs, q) {
      assert h[q] in multiset(h);
    }
  }

  /**
   * The distance labels of `blank`: the blank's cell is 0, frozen cells start at `top`, and
   * level by level every unlabelled neighbour of a cell at level `d` gets `d + 1`, for as long
   * as some cell is at the current level. Every cell the search reached descends to the blank
   * one label at a time, and none has a neighbour more than one label further (bar frozen ones).
   */
  method Distances(nb: seq<seq<int>>, top: nat, b: nat, fs: seq<int>) returns (h: seq<Option<nat>>)
    requires Symmetric(nb) && b < |nb| && forall i :: 0 <= i < |fs| ==> 0 <= fs[i] < |nb|
    ensures |h| == |nb| && Routed(nb, h, b, fs, top)
  {
    h := Seed(nb, top, b, fs);
    var d := 0;
    while multiset(h)[Some(d)] > 0
      invariant Labelling(nb, h, b, fs, top) && Bounded(h, b, fs, d) && ClosedBelow(nb, h, b, fs, d)
      decreases multiset(h)[None] + (if multiset(h)[Some(d)] > 0 then 1 else 0) + (if d < top then 1 else 0)
    {
      var h', grew := Sweep(nb, top, h, b, fs, d);
      PassShrinks(h, h', b, fs, top, d, grew);
      h, d := h', d + 1;
    }
    Settle(nb, h, b, fs, top, d);
  }

  /** The labels before the search: the sentinel on every frozen cell, then 0 on the blank's. */
  method Seed(nb: seq<seq<int>>, top: nat, b: nat, fs: seq<int>) returns (h: seq<Option<nat>>)
    requires b < |nb| && forall i :: 0 <= i < |fs| ==> 0 <= fs[i] < |nb|
    ensures Labelling(nb, h, b, fs, top) && Bounded(h, b, fs, 0) && ClosedBelow(nb, h, b, fs, 0)
    ensures forall q :: 0 <= q < |h| ==> h[q] == (if q == b then Some(0) else if q in fs then Some(top) else None)
  {
    h := seq(|nb|, _ => None);
    var i := 0;
    while i < |fs|
      invariant 0 <= i <= |fs| && |h| == |nb|
      invariant forall q :: 0 <= q < |h| ==> h[q] == (if q in fs[..i] then Some(top) else None)
    {
      assert fs[..i + 1] == fs[..i] + [fs[i]];
      h := h[fs[i] := Some(top)];
      i := i + 1;
    }
    assert fs[..i] == fs;
    h := h[b := Some(0)];
  }

  /** A labelling with no cell at the current level is where the search stops: it is settled. */
  lemma Settle(nb: seq<seq<int>>, h: seq<Option<nat>>, b: int, fs: seq<int>, top: nat, d: nat)
    requires Labelling(nb, h, b, fs, top) && Bounded(h, b, fs, d) && ClosedBelow(nb, h, b, fs, d)
    requires multiset(h)[Some(d)] == 0
    ensures Routed(nb, h, b, fs, top)
  {
    Finished(nb, h, b, fs, d);
    Unseal(nb, h, b, fs, top, |h| + 4);
  }

  /** The labels as the search leaves them: a labelling in which every reached cell was expanded. */
  predicate Settled(nb: seq<seq<int>>, h: seq<Option<nat>>, b: int, fs: seq<int>, top: nat)
  {
    Labelling(nb, h, b, fs, top) &&
    forall q :: 0 <= q < |h| && h[q].Some? && !Prefrozen(b, fs, q) ==> Expanded(nb, h, b, fs, q)
  }

  /**
   * `Settled`, behind a countdown: the verifier unfolds a recursive predicate one step at a time,
   * so the facts about every cell stay out of sight until `Unseal` is called.
   */
  predicate Routed(nb: seq<seq<int>>, h: seq<Option<nat>>, b: int, fs: seq<int>, top: nat)
  {
    Sealed(nb, h, b, fs, top, |h| + 4)
  }

  /** Every labelled cell other than the blank's is labelled at least 1. */
  lemma LabelPositive(nb: seq<seq<int>>, h: seq<Option<nat>>, b: int, fs: seq<int>, top: nat, q: int)
    requires Routed(nb, h, b, fs, top) && top >= 1 && 0 <= q < |h| && q != b && h[q].Some?
    ensures h[q].value >= 1
  {
    RoutedLabelling(nb, h, b, fs, top);
    if Prefrozen(b, fs, q) {
      assert h[q] == Some(top);
    }
  }

  lemma RoutedSettled(nb: seq<seq<int>>, h: seq<Option<nat>>, b: int, fs: seq<int>, top: nat)
    requires Routed(nb, h, b, fs, top)
    ensures Settled(nb, h, b, fs, top)
  {
    Unseal(nb, h, b, fs, top, |h| + 4);
  }

  lemma RoutedLabelling(nb: seq<seq<int>>, h: seq<Option<nat>>, b: int, fs: seq<int>, top: nat)
    requires Routed(nb, h, b, fs, top)
    ensures Labelling(nb, h, b, fs, top)
  {
    Unseal(nb, h, b, fs, top, |h| + 4);
  }

  predicate Sealed(nb: seq<seq<int>>, h: seq<Option<nat>>, b: int, fs: seq<int>, top: nat, k: nat)
    decreases k
  {
    if k == 0 then Settled(nb, h, b, fs, top) else Sealed(nb, h, b, fs, top, k - 1)
  }

  lemma {:induction false} Unseal(nb: seq<seq<int>>, h: seq<Option<nat>>, b: int, fs: seq<int>, top: nat, k: nat)
    ensures Sealed(nb, h, b, fs, top, k) <==> Settled(nb, h, b, fs, top)
    decreases k
  {
    if k > 0 {
      Unseal(nb, h, b, fs, top, k - 1);
    }
  }

  /** `(d, p)` comes no later than `(e, q)` in Python's ordering of pairs. */
  predicate NoLater(d: nat, p: int, e: nat, q: int)
  {
    d < e || (d == e && p <= q)
  }

  /**
   * `min((h[p], p) for p in ps)`: the destination with the smallest label, the lowest index
   * among equals. There is none when `ps` is empty or when some destination was never
   * labelled, since a missing label cannot be compared.
   */
  function Nearest(h: seq<Option<nat>>, ps: seq<int>): (r: Option<(nat, int)>)
    requires forall i :: 0 <= i < |ps| ==> 0 <= ps[i] < |h|
    ensures r.None? <==> ps == [] || exists i :: 0 <= i < |ps| && h[ps[i]].None?
    ensures r.Some? ==> r.value.1 in ps && h[r.value.1] == Some(r.value.0)
    ensures r.Some? ==> forall i :: 0 <= i < |ps| ==> NoLater(r.value.0, r.value.1, h[ps[i]].value, ps[i])
    decreases |ps|
  {
    if ps == [] || h[ps[0]].None? then None
    else if |ps| == 1 then Some((h[ps[0]].value, ps[0]))
    else
      match Nearest(h, ps[1..])
      case None => assert h[ps[1..][0]] == h[ps[1]]; None
      case Some((e, q)) =>
        var d := h[ps[0]].value;
        if NoLater(d, ps[0], e, q) then Some((d, ps[0])) else Some((e, q))
  }

  /** Every destination is labelled, and no lower than the nearest one. */
  lemma NearestAt(h: seq<Option<nat>>, ps: seq<int>, d: nat, p: int, q: int)
    requires forall i :: 0 <= i < |ps| ==> 0 <= ps[i] < |h|
    requires Nearest(h, ps) == Some((d, p)) && q in ps
    ensures 0 <= q < |h| && h[q].Some? && d <= h[q].value
  {
    var x :| 0 <= x < |ps| && ps[x] == q;
    assert NoLater(d, p, h[ps[x]].value, ps[x]);
  }

  /** A walk from the blank at `b`: every cell is next to the one before it, the first next to `b`. */
  predicate Walk(nb: seq<seq<int>>, b: int, ms: seq<int>)
  {
    (forall i :: 0 <= i < |ms| ==> 0 <= ms[i] < |nb|) &&
    forall i {:trigger Before(b, ms, i)} :: 0 <= i < |ms| ==> Before(b, ms, i) in nb[ms[i]]
  }

  /** In a labelling below the sentinel, a cell at level `d >= 1` has a neighbour at level `d - 1`. */
  lemma StepDown(nb: seq<seq<int>>, h: seq<Option<nat>>, b: int, fs: seq<int>, top: nat, p: int, d: nat)
    returns (r: int)
    requires Routed(nb, h, b, fs, top) && |h| == |nb| && 0 <= p < |h| && h[p] == Some(d) && 1 <= d < top
    ensures r in nb[p] && 0 <= r < |h| && h[r] == Some(d - 1)
  {
    RoutedLabelling(nb, h, b, fs, top);
    assert h[p] != Some(top) && h[p] != Some(0);
    assert p != b && !Prefrozen(b, fs, p);
    assert exists r :: r in nb[p] && 0 <= r < |h| && h[r] == Some(d - 1);
    r :| r in nb[p] && 0 <= r < |h| && h[r] == Some(d - 1);
  }

  /** Only the blank's cell is at level 0. */
  lemma OnlyBlankAtZero(h: seq<Option<nat>>, b: int, fs: seq<int>, top: nat, nb: seq<seq<int>>, r: int)
    requires Labelling(nb, h, b, fs, top) && top > 0 && 0 <= r < |h|
    ensures h[r] == Some(0) ==> r == b
  {
  }

  /** The walk back so far: it starts at `p`, at level `d`, and climbs one label a step up to `p0`. */
  predicate Trail(nb: seq<seq<int>>, h: seq<Option<nat>>, ms: seq<int>, p: int, d: nat, p0: int, d0: nat)
  {
    |h| == |nb| && 1 <= d <= d0 && |ms| == d0 - d + 1 && ms[0] == p && ms[|ms| - 1] == p0 &&
    (forall i :: 0 <= i < |ms| ==> 0 <= ms[i] < |h| && h[ms[i]] == Some(d + i)) &&
    forall i :: 0 < i < |ms| ==> 0 <= ms[i] < |nb| && ms[i - 1] in nb[ms[i]]
  }

  lemma TrailStep(nb: seq<seq<int>>, h: seq<Option<nat>>, ms: seq<int>, from: int, p: int, d: nat, p0: int, d0: nat)
    requires Trail(nb, h, ms, from, d + 1, p0, d0) && 0 <= p < |h| && h[p] == Some(d) && p in nb[from] && d >= 1
    ensures Trail(nb, h, [p] + ms, p, d, p0, d0)
  {
    var ms' := [p] + ms;
    assert forall i :: 0 < i < |ms'| ==> ms'[i] == ms[i - 1];
  }

  lemma TrailDone(nb: seq<seq<int>>, h: seq<Option<nat>>, ms: seq<int>, p: int, p0: int, d0: nat,
                  b: int, fs: seq<int>, top: nat)
    requires Routed(nb, h, b, fs, top) && Trail(nb, h, ms, p, 1, p0, d0) && d0 < top
    ensures |ms| == d0 && ms[d0 - 1] == p0 && Walk(nb, b, ms) && forall i :: 0 <= i < d0 ==> h[ms[i]] == Some(i + 1)
  {
    RoutedLabelling(nb, h, b, fs, top);
    var r := StepDown(nb, h, b, fs, top, ms[0], 1);
    OnlyBlankAtZero(h, b, fs, top, nb, r);
  }

  /** A walk from the blank to `p0` whose `i`-th cell is labelled `i + 1`, so `p0` is labelled `d0`. */
  predicate Descent(nb: seq<seq<int>>, h: seq<Option<nat>>, b: int, ms: seq<int>, p0: int, d0: nat)
  {
    d0 >= 1 && |ms| == d0 && ms[d0 - 1] == p0 && Walk(nb, b, ms) &&
    forall i :: 0 <= i < d0 ==> 0 <= ms[i] < |h| && h[ms[i]] == Some(i + 1)
  }

  /**
   * The walk back from `p0` at label `d0`: at each step, the first neighbour (in `adjacent`'s
   * order) one label lower is put in front. When no neighbour qualifies, the walk carries on
   * from the last neighbour looked at, as the loop variable is left there.
   */
  method Backtrack(nb: seq<seq<int>>, h: seq<Option<nat>>, p0: int, d0: nat, ghost b: int, ghost fs: seq<int>,
                   ghost top: nat) returns (ms: seq<int>)
    requires Symmetric(nb) && |h| == |nb| && 0 <= p0 < |nb|
    ensures |ms| >= 1 && forall i :: 0 <= i < |ms| ==> 0 <= ms[i] < |nb|
    ensures Routed(nb, h, b, fs, top) && h[p0] == Some(d0) && 1 <= d0 < top ==> Descent(nb, h, b, ms, p0, d0)
  {
    ghost var good := Routed(nb, h, b, fs, top) && h[p0] == Some(d0) && 1 <= d0 < top;
    ms := [p0];
    var p, d := p0, d0;
    while d > 1
      invariant 0 <= p < |nb| && |ms| >= 1 && forall i :: 0 <= i < |ms| ==> 0 <= ms[i] < |nb|
      invariant good ==> Trail(nb, h, ms, p, d, p0, d0)
    {
      d := d - 1;
      ghost var from, ms0 := p, ms;
      var found;
      p, found := Lower(nb, h, p, d);
      if found {
        ms := [p] + ms;
      }
      if good {
        var r := StepDown(nb, h, b, fs, top, from, d + 1);
        assert found;
        TrailStep(nb, h, ms0, from, p, d, p0, d0);
      }
    }
    if good {
      TrailDone(nb, h, ms, p, p0, d0, b, fs, top);
    }
  }

  /**
   * One step of the walk back: the first neighbour of `p` labelled `d`, or, when there is none,
   * the last neighbour looked at.
   */
  method Lower(nb: seq<seq<int>>, h: seq<Option<nat>>, p: int, d: nat) returns (q: int, found: bool)
    requires Symmetric(nb) && |h| == |nb| && 0 <= p < |nb|
    ensures 0 <= q < |nb|
    ensures found ==> q in nb[p] && h[q] == Some(d)
    ensures !found ==> forall r :: r in nb[p] ==> h[r] != Some(d)
  {
    var adj := nb[p];
    q, found := p, false;
    var j := 0;
    while j < |adj| && !found
      invariant 0 <= j <= |adj| && 0 <= q < |nb|
      invariant found ==> q in adj && h[q] == Some(d)
      invariant !found ==> forall k :: 0 <= k < j ==> h[adj[k]] != Some(d)
    {
      q := adj[j];
      if h[q] == Some(d) {
        found := true;
      }
      j := j + 1;
    }
  }

  /**
   * No walk from the blank that keeps off the frozen cells is shorter than the labels say:
   * the `i`-th cell of such a walk is labelled at most `i + 1`.
   */
  lemma {:induction false} RouteBound(nb: seq<seq<int>>, h: seq<Option<nat>>, b: int, fs: seq<int>, top: nat,
                                      route: seq<int>)
    requires Symmetric(nb) && Labelling(nb, h, b, fs, top)
    requires forall q :: 0 <= q < |h| && h[q].Some? && !Prefrozen(b, fs, q) ==> Expanded(nb, h, b, fs, q)
    requires Walk(nb, b, route) && forall i :: 0 <= i < |route| ==> !Prefrozen(b, fs, route[i])
    ensures forall i :: 0 <= i < |route| ==> h[route[i]].Some? && h[route[i]].value <= i + 1
    decreases |route|
  {
    if route != [] {
      var k := |route| - 1;
      var front := route[..k];
      assert forall i :: 0 <= i < k ==> front[i] == route[i];
      assert Walk(nb, b, front) by {
        forall i | 0 <= i < k ensures 0 <= front[i] < |nb| && Before(b, front, i) in nb[front[i]] {
          assert 0 <= route[i] < |nb| && Before(b, route, i) in nb[route[i]];
        }
      }
      RouteBound(nb, h, b, fs, top, front);
      var prev := Before(b, route, k);
      SymmetricAt(nb, route[k], prev);
      assert h[prev].Some? && h[prev].value <= k && !Prefrozen(b, fs, prev);
      assert Expanded(nb, h, b, fs, prev);
    }
  }

  /** On the board's own neighbour table, a walk is exactly a chain of legal slides. */
  lemma WalkChain(m: nat, n: nat, b: int, ps: seq<int>)
    requires m > 0
    ensures Walk(Neighbourhood(m, n), b, ps) <==> Chain(m, n, b, ps)
  {
    var nb := Neighbourhood(m, n);
    if Walk(nb, b, ps) {
      forall i | 0 <= i < |ps| ensures Link(m, n, Before(b, ps, i), ps[i]) {
        assert 0 <= ps[i] < |nb| && Before(b, ps, i) in nb[ps[i]];
        NeighbourhoodAt(m, n, ps[i]);
      }
    }
    if Chain(m, n, b, ps) {
      forall i | 0 <= i < |ps| ensures 0 <= ps[i] < |nb| && Before(b, ps, i) in nb[ps[i]] {
        assert Link(m, n, Before(b, ps, i), ps[i]);
        NeighbourhoodAt(m, n, ps[i]);
      }
    }
  }
}
