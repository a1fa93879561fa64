/**
 * Board geometry of the working orientation: a board `m` cells wide and `n` cells high, stored
 * row-major, so cell `p` is in row `p / m` and column `p % m` (Python's `divmod(p, m)`; for a
 * positive width Dafny's division agrees with it on negative numbers too). A slide exchanges the
 * blank with a neighbouring cell.
 */
module Grid {
  import opened Lists

  function Row(m: nat, p: int): int requires m > 0 { p / m }
  function Col(m: nat, p: int): int requires m > 0 { p % m }

  predicate OnBoard(m: nat, n: nat, p: int) { 0 <= p < m * n }

  /** Two cells one row apart in the same column, or one column apart in the same row. */
  predicate Neighbours(m: nat, p: int, q: int)
    requires m > 0
  {
    (Col(m, p) == Col(m, q) && (Row(m, q) == Row(m, p) - 1 || Row(m, q) == Row(m, p) + 1)) ||
    (Row(m, p) == Row(m, q) && (Col(m, q) == Col(m, p) - 1 || Col(m, q) == Col(m, p) + 1))
  }

  /** The rank of the direction from `p` to a neighbour `q`: up 0, down 1, left 2, right 3. */
  function Direction(m: nat, p: int, q: int): nat
    requires m > 0
  {
    if Row(m, q) < Row(m, p) then 0
    else if Row(m, q) > Row(m, p) then 1
    else if Col(m, q) < Col(m, p) then 2
    else 3
  }

  /** The cells next to `p`, listed up, down, left, right. */
  function Adjacent(m: nat, n: nat, p: int): (r: seq<int>)
    requires m > 0
    ensures |r| <= 4
  {
    var p0, p1 := p / m, p % m;
    NextCells(m, p);
    (if p0 > 0 then [p - m] else []) +
    (if p0 + 1 < n then [p + m] else []) +
    (if p1 > 0 then [p - 1] else []) +
    (if p1 + 1 < m then [p + 1] else [])
  }

  /** `adjacent` lists the neighbours in the order up, down, left, right, each at most once. */
  lemma AdjacentOrder(m: nat, n: nat, p: int)
    requires m > 0
    ensures forall i, j :: 0 <= i < j < |Adjacent(m, n, p)| ==>
      Direction(m, p, Adjacent(m, n, p)[i]) < Direction(m, p, Adjacent(m, n, p)[j])
  {
    NextCells(m, p);
  }

  /** Rows and columns of the four cells around `p`. */
  lemma NextCells(m: nat, p: int)
    requires m > 0
    ensures Row(m, p - m) == Row(m, p) - 1 && Col(m, p - m) == Col(m, p)
    ensures Row(m, p + m) == Row(m, p) + 1 && Col(m, p + m) == Col(m, p)
    ensures Col(m, p) > 0 ==> Row(m, p - 1) == Row(m, p) && Col(m, p - 1) == Col(m, p) - 1
    ensures Col(m, p) + 1 < m ==> Row(m, p + 1) == Row(m, p) && Col(m, p + 1) == Col(m, p) + 1
  {
    RowCol(m, p);
    var r, c := Row(m, p), Col(m, p);
    CellAt(m, r - 1, c);
    CellAt(m, r + 1, c);
    assert p - m == (r - 1) * m + c && p + m == (r + 1) * m + c;
    if c > 0 { CellAt(m, r, c - 1); }
    if c + 1 < m { CellAt(m, r, c + 1); }
  }

  /** The cells above, right of and left of a cell of the board, when they exist, are on the board. */
  lemma Steps(m: nat, n: nat, p: int)
    requires m > 0 && OnBoard(m, n, p)
    ensures Row(m, p) > 0 ==> OnBoard(m, n, p - m) && Row(m, p - m) == Row(m, p) - 1 && Col(m, p - m) == Col(m, p)
    ensures Col(m, p) + 1 < m ==> OnBoard(m, n, p + 1) && Row(m, p + 1) == Row(m, p) && Col(m, p + 1) == Col(m, p) + 1
    ensures Col(m, p) > 0 ==> OnBoard(m, n, p - 1) && Row(m, p - 1) == Row(m, p) && Col(m, p - 1) == Col(m, p) - 1
    ensures 0 <= Row(m, p) < n && 0 <= Col(m, p) < m
  {
    NextCells(m, p);
    RowCol(m, p);
    OnBoardRowCol(m, n, p);
    OnBoardRowCol(m, n, p - m);
    OnBoardRowCol(m, n, p + 1);
    OnBoardRowCol(m, n, p - 1);
  }

  /** The cell in row `r`, column `c`. */
  lemma CellAt(m: nat, r: int, c: int)
    requires m > 0 && 0 <= c < m
    ensures Row(m, r * m + c) == r && Col(m, r * m + c) == c
  {
    DivMod(r, c, m);
  }

  lemma RowCol(m: nat, p: int)
    requires m > 0
    ensures p == Row(m, p) * m + Col(m, p) && 0 <= Col(m, p) < m
  {
    assert p == m * (p / m) + p % m;
  }

  /** A cell is on the board exactly when its row and column are. */
  lemma OnBoardRowCol(m: nat, n: nat, p: int)
    requires m > 0
    ensures OnBoard(m, n, p) <==> 0 <= Row(m, p) < n
  {
    RowCol(m, p);
    var r, c := Row(m, p), Col(m, p);
    if 0 <= r < n {
      CellBound(r, c, m, n);
    }
    if r < 0 {
      assert r * m + c < 0 by { MulMono(r, -1, m); }
    }
    if r >= n && p >= 0 {
      MulMono(n, r, m);
      assert n * m == m * n;
    }
  }

  /** Two cells with the same row and column are the same cell. */
  lemma SameCell(m: nat, p: int, q: int)
    requires m > 0 && Row(m, p) == Row(m, q) && Col(m, p) == Col(m, q)
    ensures p == q
  {
    RowCol(m, p);
    RowCol(m, q);
  }

  /** The four candidate cells of `adjacent(p)` and the guard on each. */
  lemma AdjacentMembers(m: nat, n: nat, p: int, q: int)
    requires m > 0
    ensures q in Adjacent(m, n, p) <==>
      (q == p - m && Row(m, p) > 0) || (q == p + m && Row(m, p) + 1 < n) ||
      (q == p - 1 && Col(m, p) > 0) || (q == p + 1 && Col(m, p) + 1 < m)
  {
  }

  /** `adjacent(p)` yields exactly the on-board cells one row or one column away from `p`. */
  lemma AdjacentCells(m: nat, n: nat, p: int, q: int)
    requires m > 0 && OnBoard(m, n, p)
    ensures q in Adjacent(m, n, p) <==> OnBoard(m, n, q) && Neighbours(m, p, q)
  {
    AdjacentMembers(m, n, p, q);
    NextCells(m, p);
    OnBoardRowCol(m, n, p);
    OnBoardRowCol(m, n, q);
    var r, c := Row(m, p), Col(m, p);
    if Neighbours(m, p, q) {
      if Col(m, q) == c && Row(m, q) == r - 1 {
        SameCell(m, q, p - m);
      } else if Col(m, q) == c && Row(m, q) == r + 1 {
        SameCell(m, q, p + m);
      } else if Col(m, q) == c - 1 {
        SameCell(m, q, p - 1);
      } else {
        SameCell(m, q, p + 1);
      }
    }
  }

  /** A cell and the one below it, both on the board, are a slide apart either way. */
  lemma VerticalLink(m: nat, n: nat, p: int, q: int)
    requires m > 0 && 0 <= p && q == p + m && OnBoard(m, n, q)
    ensures Link(m, n, p, q) && Link(m, n, q, p)
  {
    NextCells(m, p);
    OnBoardRowCol(m, n, p);
    OnBoardRowCol(m, n, q);
    AdjacentMembers(m, n, p, q);
    AdjacentMembers(m, n, q, p);
  }

  /** A cell of the board and the one to its right in the same row are a slide apart either way. */
  lemma HorizontalLink(m: nat, n: nat, p: int, q: int)
    requires m > 0 && OnBoard(m, n, p) && q == p + 1 && Col(m, p) + 1 < m
    ensures Link(m, n, p, q) && Link(m, n, q, p)
  {
    Steps(m, n, p);
    AdjacentMembers(m, n, p, q);
    AdjacentMembers(m, n, q, p);
  }

  /** Every cell `adjacent(p)` yields is on the board. */
  lemma AdjacentInside(m: nat, n: nat, p: int)
    requires m > 0 && OnBoard(m, n, p)
    ensures forall q :: q in Adjacent(m, n, p) ==> OnBoard(m, n, q)
  {
    forall q | q in Adjacent(m, n, p) ensures OnBoard(m, n, q) {
      AdjacentCells(m, n, p, q);
    }
  }

  /** Adjacency is symmetric. */
  lemma AdjacentSymmetric(m: nat, n: nat, p: int, q: int)
    requires m > 0 && OnBoard(m, n, p) && OnBoard(m, n, q)
    ensures q in Adjacent(m, n, p) <==> p in Adjacent(m, n, q)
  {
    AdjacentCells(m, n, p, q);
    AdjacentCells(m, n, q, p);
  }

  /** The blank at `a` may slide into cell `p`: `p` is on the board and `a` is one of its neighbours. */
  predicate Link(m: nat, n: nat, a: int, p: int)
    requires m > 0
  {
    OnBoard(m, n, p) && a in Adjacent(m, n, p)
  }

  /** Where the blank is after following the cells `ps` from `b`. */
  function End(b: int, ps: seq<int>): int
  {
    if ps == [] then b else ps[|ps| - 1]
  }

  /** Where the blank is just before the `i`-th slide of `ps`, when it starts at `b`. */
  function Before(b: int, ps: seq<int>, i: int): int
    requires 0 <= i < |ps|
  {
    if i == 0 then b else ps[i - 1]
  }

  /** Every cell of `ps` is next to the blank at the moment it is slid. */
  predicate Chain(m: nat, n: nat, b: int, ps: seq<int>)
    requires m > 0
  {
    forall i {:trigger Before(b, ps, i)} :: 0 <= i < |ps| ==> Link(m, n, Before(b, ps, i), ps[i])
  }

  /** Exchanging the contents of two cells. */
  function Swap(g: seq<int>, b: int, p: int): (r: seq<int>)
    requires 0 <= b < |g| && 0 <= p < |g|
    ensures |r| == |g| && r[b] == g[p] && r[p] == g[b]
  {
    g[b := g[p]][p := g[b]]
  }

  /** An exchange rearranges the board without adding or losing anything. */
  lemma SwapMultiset(g: seq<int>, b: int, p: int)
    requires 0 <= b < |g| && 0 <= p < |g|
    ensures multiset(Swap(g, b, p)) == multiset(g)
  {
  }

  /** An exchange keeps the values distinct. */
  lemma SwapDistinct(g: seq<int>, b: int, p: int)
    requires 0 <= b < |g| && 0 <= p < |g| && Distinct(g)
    ensures Distinct(Swap(g, b, p))
  {
    var r := Swap(g, b, p);
    forall i, j | 0 <= i < j < |r| ensures r[i] != r[j] {
      var si := if i == b then p else if i == p then b else i;
      var sj := if j == b then p else if j == p then b else j;
      assert r[i] == g[si] && r[j] == g[sj];
    }
  }

  /** A chain stays on the board. */
  lemma ChainOnBoard(m: nat, n: nat, b: int, ps: seq<int>)
    requires m > 0 && Chain(m, n, b, ps)
    ensures forall i :: 0 <= i < |ps| ==> OnBoard(m, n, ps[i])
  {
    forall i | 0 <= i < |ps| ensures OnBoard(m, n, ps[i]) {
      ChainAt(m, n, b, ps, i);
    }
  }

  lemma ChainAt(m: nat, n: nat, b: int, ps: seq<int>, i: nat)
    requires m > 0 && Chain(m, n, b, ps) && i < |ps|
    ensures Link(m, n, Before(b, ps, i), ps[i])
  {
  }

  /** A prefix of a chain is a chain. */
  lemma ChainShrink(m: nat, n: nat, b: int, ps: seq<int>, k: nat)
    requires m > 0 && k <= |ps| && Chain(m, n, b, ps)
    ensures Chain(m, n, b, ps[..k])
  {
    var a := ps[..k];
    forall i | 0 <= i < |a| ensures Link(m, n, Before(b, a, i), a[i]) {
      ChainAt(m, n, b, ps, i);
      assert Before(b, ps, i) == Before(b, a, i);
    }
  }

  /** A chain followed by one more slide next to where it ends is a chain. */
  lemma ChainSnoc(m: nat, n: nat, b: int, a: seq<int>, x: int)
    requires m > 0 && Chain(m, n, b, a) && Link(m, n, End(b, a), x)
    ensures Chain(m, n, b, a + [x])
  {
    var c := a + [x];
    forall i | 0 <= i < |c| ensures Link(m, n, Before(b, c, i), c[i]) {
      if i < |a| {
        ChainAt(m, n, b, a, i);
        assert c[i] == a[i];
        assert Before(b, c, i) == Before(b, a, i);
      } else {
        assert c[i] == x;
        assert Before(b, c, i) == End(b, a);
      }
    }
  }

  /** A chain one slide longer is a chain whose last slide is next to where the shorter one ends. */
  lemma ChainPrefix(m: nat, n: nat, b: int, ps: seq<int>, k: nat)
    requires m > 0 && k < |ps|
    ensures Chain(m, n, b, ps[..k + 1]) <==> Chain(m, n, b, ps[..k]) && Link(m, n, End(b, ps[..k]), ps[k])
  {
    var a, c := ps[..k], ps[..k + 1];
    if Chain(m, n, b, c) {
      ChainShrink(m, n, b, c, k);
      assert c[..k] == a;
      ChainAt(m, n, b, c, k);
      assert Before(b, c, k) == End(b, a);
    }
    if Chain(m, n, b, a) && Link(m, n, End(b, a), ps[k]) {
      assert c == a + [ps[k]];
      ChainSnoc(m, n, b, a, ps[k]);
    }
  }

  /** The board after sliding the tiles at `ps`, in order, with the blank starting at `b`. */
  function Slid(g: seq<int>, b: int, ps: seq<int>): (r: seq<int>)
    requires 0 <= b < |g| && forall i :: 0 <= i < |ps| ==> 0 <= ps[i] < |g|
    ensures |r| == |g|
    decreases |ps|
  {
    if ps == [] then g
    else
      var k := |ps| - 1;
      assert forall i :: 0 <= i < k ==> ps[..k][i] == ps[i];
      Swap(Slid(g, b, ps[..k]), End(b, ps[..k]), ps[k])
  }

  /** A single slide exchanges the blank with the tile. */
  lemma SlidOne(g: seq<int>, b: int, x: int)
    requires 0 <= b < |g| && 0 <= x < |g|
    ensures Slid(g, b, [x]) == Swap(g, b, x) && End(b, [x]) == x
  {
    assert [x][..0] == [];
  }

  /** Sliding one more tile is one more exchange with the blank. */
  lemma SlidSnoc(g: seq<int>, b: int, ps: seq<int>, x: int)
    requires 0 <= b < |g| && 0 <= x < |g| && forall i :: 0 <= i < |ps| ==> 0 <= ps[i] < |g|
    ensures forall i :: 0 <= i < |ps + [x]| ==> 0 <= (ps + [x])[i] < |g|
    ensures 0 <= End(b, ps) < |g| && End(b, ps + [x]) == x
    ensures Slid(g, b, ps + [x]) == Swap(Slid(g, b, ps), End(b, ps), x)
  {
    assert (ps + [x])[..|ps|] == ps;
  }

  /**
   * Sliding keeps the board a rearrangement of the same distinct values, brings the blank to the
   * last cell of the chain and leaves every cell off the chain alone.
   */
  lemma {:induction false} SlidFacts(g: seq<int>, b: int, ps: seq<int>)
    requires 0 <= b < |g| && forall i :: 0 <= i < |ps| ==> 0 <= ps[i] < |g|
    requires g[b] == 0
    ensures 0 <= End(b, ps) < |g| && Slid(g, b, ps)[End(b, ps)] == 0
    ensures multiset(Slid(g, b, ps)) == multiset(g)
    ensures Distinct(g) ==> Distinct(Slid(g, b, ps))
    ensures forall k :: 0 <= k < |g| && k != b && k !in ps ==> Slid(g, b, ps)[k] == g[k]
    decreases |ps|
  {
    if ps != [] {
      var k := |ps| - 1;
      var ps' := ps[..k];
      assert forall i :: 0 <= i < k ==> ps'[i] == ps[i];
      SlidFacts(g, b, ps');
      SlidStep(g, b, ps, Slid(g, b, ps'), End(b, ps'));
    }
  }

  /** The last slide of a run, given what the slides before it did. */
  lemma SlidStep(g: seq<int>, b: int, ps: seq<int>, g': seq<int>, e: int)
    requires 0 <= b < |g| && forall i :: 0 <= i < |ps| ==> 0 <= ps[i] < |g|
    requires ps != [] && g' == Slid(g, b, ps[..|ps| - 1]) && e == End(b, ps[..|ps| - 1])
    requires 0 <= e < |g| && g'[e] == 0 && multiset(g') == multiset(g)
    requires Distinct(g) ==> Distinct(g')
    requires forall k :: 0 <= k < |g| && k != b && k !in ps[..|ps| - 1] ==> g'[k] == g[k]
    requires e == b || e in ps[..|ps| - 1]
    ensures 0 <= End(b, ps) < |g| && Slid(g, b, ps)[End(b, ps)] == 0
    ensures multiset(Slid(g, b, ps)) == multiset(g)
    ensures Distinct(g) ==> Distinct(Slid(g, b, ps))
    ensures forall k :: 0 <= k < |g| && k != b && k !in ps ==> Slid(g, b, ps)[k] == g[k]
  {
    var x := ps[|ps| - 1];
    assert Slid(g, b, ps) == Swap(g', e, x);
    SwapMultiset(g', e, x);
    if Distinct(g) {
      SwapDistinct(g', e, x);
    }
    assert forall q :: q in ps[..|ps| - 1] ==> q in ps;
  }

  /** The neighbours of every cell of the board, in `adjacent`'s order. */
  function Neighbourhood(m: nat, n: nat): (nb: seq<seq<int>>)
    requires m > 0
    ensures |nb| == m * n
  {
    Table(m, n, m * n)
  }

  /** The neighbours of the first `k` cells. */
  function Table(m: nat, n: nat, k: nat): (t: seq<seq<int>>)
    requires m > 0
    ensures |t| == k
  {
    if k == 0 then [] else Table(m, n, k - 1) + [Adjacent(m, n, k - 1)]
  }

  lemma {:induction false} TableAt(m: nat, n: nat, k: nat, p: int)
    requires m > 0 && 0 <= p < k
    ensures Table(m, n, k)[p] == Adjacent(m, n, p)
    decreases k
  {
    if p < k - 1 {
      TableAt(m, n, k - 1, p);
    }
  }

  /** The table lists, for each cell, the cells `adjacent` yields. */
  lemma NeighbourhoodAt(m: nat, n: nat, p: int)
    requires m > 0 && 0 <= p < m * n
    ensures Neighbourhood(m, n)[p] == Adjacent(m, n, p)
  {
    TableAt(m, n, m * n, p);
  }

  /** A neighbour table whose cells are in range and whose neighbour relation is symmetric. */
  predicate Symmetric(nb: seq<seq<int>>)
  {
    forall p, k :: 0 <= p < |nb| && 0 <= k < |nb[p]| ==> 0 <= nb[p][k] < |nb| && p in nb[nb[p][k]]
  }

  lemma SymmetricAt(nb: seq<seq<int>>, p: int, q: int)
    requires Symmetric(nb) && 0 <= p < |nb| && q in nb[p]
    ensures 0 <= q < |nb| && p in nb[q]
  {
    var k :| 0 <= k < |nb[p]| && nb[p][k] == q;
  }

  lemma NeighbourhoodSymmetric(m: nat, n: nat)
    requires m > 0
    ensures Symmetric(Neighbourhood(m, n))
  {
    var nb := Neighbourhood(m, n);
    forall p, k | 0 <= p < |nb| && 0 <= k < |nb[p]| ensures 0 <= nb[p][k] < |nb| && p in nb[nb[p][k]] {
      var q := nb[p][k];
      NeighbourhoodAt(m, n, p);
      AdjacentCells(m, n, p, q);
      NeighbourhoodAt(m, n, q);
      AdjacentSymmetric(m, n, p, q);
    }
  }
}
