/**
 * The fixed runs of slides with which the solvers finish the top row. The general solver's
 * end game takes 8 slides on a board at least 3 wide; the two-column solver's takes 16 slides
 * on a board 2 wide and at least 3 high. Each is a chain of slides from the cell the blank is
 * brought to, and each moves just three tiles around a cycle, leaving every other cell as it was.
 */
module Maneuvers {
  import opened Lists
  import opened Grid

  /**
   * The slides around two rows of three cells, `p`, `q`, `r` above `s`, `u`, `t`, from the blank
   * at `s`: along the top row, down, back along the lower row, up, along the top row and down.
   */
  function Ring(p: int, q: int, r: int, s: int, u: int, t: int): (ps: seq<int>)
    ensures |ps| == 8 && ps[0] == p && ps[3] == t && ps[7] == s
  {
    [p, q, r, t] + [u, q, p, s]
  }

  /** `p + x for x in (0, 1, 2, 2 + m, 1 + m, 1, 0, m)` with `p = m - 3`, the general end game. */
  function EndGame(m: int): (r: seq<int>)
    ensures r == [m - 3, m - 2, m - 1, 2 * m - 1, 2 * m - 2, m - 2, m - 3, 2 * m - 3]
  {
    Ring(m - 3, m - 2, m - 1, 2 * m - 3, 2 * m - 2, 2 * m - 1)
  }

  /**
   * Sixteen slides over a block two cells wide and three high, its cells `c0` to `c5` in reading
   * order, from the blank at `c2`, in four runs of four.
   */
  function Shuffle(c0: int, c1: int, c2: int, c3: int, c4: int, c5: int): (ps: seq<int>)
    ensures |ps| == 16
  {
    ([c0, c1, c3, c5] + [c4, c2, c0, c1]) + ([c3, c2, c4, c5] + [c3, c1, c0, c2])
  }

  /** The two-column end game, from the blank at cell 2. */
  function NarrowEndGame(): (r: seq<int>)
    ensures r == [0, 1, 3, 5, 4, 2, 0, 1, 3, 2, 4, 5, 3, 1, 0, 2]
  {
    Shuffle(0, 1, 2, 3, 4, 5)
  }

  /** Four slides are four exchanges with the blank. */
  lemma Slid4(g: seq<int>, b: int, a: int, c: int, d: int, e: int)
    requires 0 <= b < |g| && 0 <= a < |g| && 0 <= c < |g| && 0 <= d < |g| && 0 <= e < |g|
    ensures Slid(g, b, [a, c, d, e]) == Swap(Swap(Swap(Swap(g, b, a), a, c), c, d), d, e)
    ensures End(b, [a, c, d, e]) == e
  {
    SlidOne(g, b, a);
    SlidSnoc(g, b, [a], c);
    assert [a] + [c] == [a, c];
    SlidSnoc(g, b, [a, c], d);
    assert [a, c] + [d] == [a, c, d];
    SlidSnoc(g, b, [a, c, d], e);
    assert [a, c, d] + [e] == [a, c, d, e];
  }

  /** Sliding `ps` and then `qs` is sliding `ps + qs`. */
  lemma {:induction false} SlidJoin(g: seq<int>, b: int, ps: seq<int>, qs: seq<int>)
    requires 0 <= b < |g| && forall i :: 0 <= i < |ps| ==> 0 <= ps[i] < |g|
    requires forall i :: 0 <= i < |qs| ==> 0 <= qs[i] < |g|
    ensures forall i :: 0 <= i < |ps + qs| ==> 0 <= (ps + qs)[i] < |g|
    ensures 0 <= End(b, ps) < |g| && End(b, ps + qs) == End(End(b, ps), qs)
    ensures Slid(g, b, ps + qs) == Slid(Slid(g, b, ps), End(b, ps), qs)
    decreases |qs|
  {
    if qs == [] {
      assert ps + qs == ps;
    } else {
      var k := |qs| - 1;
      var front := qs[..k];
      assert forall i :: 0 <= i < k ==> front[i] == qs[i];
      assert ps + qs == (ps + front) + [qs[k]];
      assert qs == front + [qs[k]];
      SlidJoin(g, b, ps, front);
      SlidSnoc(g, b, ps + front, qs[k]);
      SlidSnoc(Slid(g, b, ps), End(b, ps), front, qs[k]);
    }
  }

  /** Four slides, each next to the cell before it, are a chain. */
  lemma Chain4(m: nat, n: nat, b: int, a: int, c: int, d: int, e: int)
    requires m > 0 && Link(m, n, b, a) && Link(m, n, a, c) && Link(m, n, c, d) && Link(m, n, d, e)
    ensures Chain(m, n, b, [a, c, d, e])
  {
    ChainSnoc(m, n, b, [], a);
    assert [] + [a] == [a];
    ChainSnoc(m, n, b, [a], c);
    assert [a] + [c] == [a, c];
    ChainSnoc(m, n, b, [a, c], d);
    assert [a, c] + [d] == [a, c, d];
    ChainSnoc(m, n, b, [a, c, d], e);
    assert [a, c, d] + [e] == [a, c, d, e];
  }

  /** A chain continued by a chain from where it ends is a chain. */
  lemma ChainJoin(m: nat, n: nat, b: int, ps: seq<int>, qs: seq<int>)
    requires m > 0 && Chain(m, n, b, ps) && Chain(m, n, End(b, ps), qs)
    ensures Chain(m, n, b, ps + qs)
  {
    var c := ps + qs;
    forall i | 0 <= i < |c| ensures Link(m, n, Before(b, c, i), c[i]) {
      if i < |ps| {
        ChainAt(m, n, b, ps, i);
        assert Before(b, c, i) == Before(b, ps, i);
      } else {
        ChainAt(m, n, End(b, ps), qs, i - |ps|);
        assert Before(b, c, i) == Before(End(b, ps), qs, i - |ps|);
      }
    }
  }

  /** One of the last three cells of the top row and the cell below it are on the board. */
  lemma EndGameCell(m: nat, n: nat, c: int)
    requires m >= 3 && n >= 2 && m - 3 <= c < m
    ensures Col(m, c) == c && OnBoard(m, n, c) && Col(m, c + m) == c && OnBoard(m, n, c + m)
  {
    MulMono(2, n, m);
    CellAt(m, 0, c);
    CellAt(m, 1, c);
    assert 1 * m + c == c + m;
  }

  /** One of the last three cells of the top row and the cell `d` below it are a slide apart. */
  lemma EndGameColumn(m: nat, n: nat, c: int, d: int)
    requires m >= 3 && n >= 2 && m - 3 <= c < m && d == c + m
    ensures Link(m, n, c, d) && Link(m, n, d, c)
  {
    EndGameCell(m, n, c);
    VerticalLink(m, n, c, d);
  }

  /** So are two neighbouring ones of them, `c` and `d`, and the two cells `e` and `f` below those. */
  lemma EndGamePair(m: nat, n: nat, c: int, d: int, e: int, f: int)
    requires m >= 3 && n >= 2 && m - 3 <= c && d == c + 1 && d < m && e == c + m && f == d + m
    ensures Link(m, n, c, d) && Link(m, n, d, c)
    ensures Link(m, n, e, f) && Link(m, n, f, e)
  {
    EndGameCell(m, n, c);
    HorizontalLink(m, n, c, d);
    HorizontalLink(m, n, e, f);
  }

  /**
   * The end game's slides, over the last three cells `p`, `q`, `r` of the top row and the cells
   * `s`, `u`, `t` below them, from the blank at `s`: along the top row, down, back along the
   * second row, up, along the top row and down again.
   */
  lemma EndGameRing(m: nat, n: nat, p: int, q: int, r: int, s: int, u: int, t: int)
    requires m >= 3 && n >= 2 && p == m - 3 && q == p + 1 && r == q + 1
    requires s == p + m && u == q + m && t == r + m
    ensures Chain(m, n, s, Ring(p, q, r, s, u, t))
  {
    EndGameColumn(m, n, p, s);
    EndGameColumn(m, n, q, u);
    EndGameColumn(m, n, r, t);
    EndGamePair(m, n, p, q, s, u);
    EndGamePair(m, n, q, r, u, t);
    Chain4(m, n, s, p, q, r, t);
    Chain4(m, n, t, u, q, p, s);
    ChainJoin(m, n, s, [p, q, r, t], [u, q, p, s]);
  }

  /** With the blank below the third cell from the right of the top row, the end game is a chain of slides. */
  lemma EndGameChain(m: nat, n: nat)
    requires m >= 3 && n >= 2
    ensures Chain(m, n, 2 * m - 3, EndGame(m))
  {
    EndGameRing(m, n, m - 3, m - 2, m - 1, 2 * m - 3, 2 * m - 2, 2 * m - 1);
  }

  /**
   * Four slides from a blank at `b` through four other distinct cells turn five tiles one step
   * around: each of the cells passed takes the tile of the next one, the last takes the blank's.
   */
  lemma Cycle4(g: seq<int>, b: int, a: int, c: int, d: int, e: int)
    requires 0 <= b < |g| && 0 <= a < |g| && 0 <= c < |g| && 0 <= d < |g| && 0 <= e < |g|
    requires b != a && b != c && b != d && b != e && a != c && a != d && a != e && c != d && c != e && d != e
    ensures End(b, [a, c, d, e]) == e
    ensures var r := Slid(g, b, [a, c, d, e]);
      r[b] == g[a] && r[a] == g[c] && r[c] == g[d] && r[d] == g[e] && r[e] == g[b] &&
      forall i :: 0 <= i < |g| && i != b && i != a && i != c && i != d && i != e ==> r[i] == g[i]
  {
    Slid4(g, b, a, c, d, e);
  }

  /**
   * Over the cells `p`, `q`, `r` of a row and the cells `s`, `u`, `t` below them, the end game's
   * slides from the blank at `s` bring the tile of `t` up into `r`, that of `r` into `u` and that
   * of `u` into `t`; every other cell is as it was, the blank back at `s`.
   */
  lemma RingEffect(g: seq<int>, m: nat, p: int, q: int, r: int, s: int, u: int, t: int)
    requires m >= 3 && 0 <= p && q == p + 1 && r == q + 1 && s == p + m && u == q + m && t == r + m && t < |g|
    ensures forall i :: 0 <= i < 8 ==> 0 <= Ring(p, q, r, s, u, t)[i] < |g|
    ensures End(s, Ring(p, q, r, s, u, t)) == s
    ensures Slid(g, s, Ring(p, q, r, s, u, t)) == g[r := g[t]][u := g[r]][t := g[u]]
  {
    var a, c := [p, q, r, t], [u, q, p, s];
    Cycle4(g, s, p, q, r, t);
    var h := Slid(g, s, a);
    Cycle4(h, t, u, q, p, s);
    var x, want := Slid(h, t, c), g[r := g[t]][u := g[r]][t := g[u]];
    forall i | 0 <= i < |g| ensures x[i] == want[i] {
      if i != p && i != q && i != r && i != s && i != u && i != t {
        assert x[i] == h[i] == g[i];
      }
    }
    assert x == want;
    SlidJoin(g, s, a, c);
  }

  /**
   * The general end game brings the tile below the top row's last cell up into it, and moves
   * the two tiles it passes on the second row along; every other cell is as it was, the blank
   * back where it started.
   */
  lemma EndGameEffect(m: nat, g: seq<int>)
    requires m >= 3 && |g| >= 2 * m
    ensures forall i :: 0 <= i < 8 ==> 0 <= EndGame(m)[i] < |g|
    ensures End(2 * m - 3, EndGame(m)) == 2 * m - 3
    ensures Slid(g, 2 * m - 3, EndGame(m)) == g[m - 1 := g[2 * m - 1]][2 * m - 2 := g[m - 1]][2 * m - 1 := g[2 * m - 2]]
  {
    var p, q, r, s, u, t := m - 3, m - 2, m - 1, 2 * m - 3, 2 * m - 2, 2 * m - 1;
    assert EndGame(m) == Ring(p, q, r, s, u, t);
    RingEffect(g, m, p, q, r, s, u, t);
  }

  /** The cells the two-column end game passes through, on a board 2 wide and at least 3 high. */
  lemma NarrowLinks(n: nat)
    requires n >= 3
    ensures Link(2, n, 2, 0) && Link(2, n, 0, 1) && Link(2, n, 1, 3) && Link(2, n, 3, 5)
    ensures Link(2, n, 5, 4) && Link(2, n, 4, 2) && Link(2, n, 2, 0) && Link(2, n, 3, 2)
    ensures Link(2, n, 0, 2) && Link(2, n, 2, 4) && Link(2, n, 4, 5) && Link(2, n, 5, 3)
    ensures Link(2, n, 3, 1) && Link(2, n, 1, 0)
  {
    MulMono(3, n, 2);
    AdjacentMembers(2, n, 0, 2);
    AdjacentMembers(2, n, 0, 1);
    AdjacentMembers(2, n, 1, 0);
    AdjacentMembers(2, n, 1, 3);
    AdjacentMembers(2, n, 2, 0);
    AdjacentMembers(2, n, 2, 3);
    AdjacentMembers(2, n, 2, 4);
    AdjacentMembers(2, n, 3, 1);
    AdjacentMembers(2, n, 3, 2);
    AdjacentMembers(2, n, 3, 5);
    AdjacentMembers(2, n, 4, 2);
    AdjacentMembers(2, n, 4, 5);
    AdjacentMembers(2, n, 5, 3);
    AdjacentMembers(2, n, 5, 4);
  }

  /** With the blank at cell 2 of a board 2 wide and at least 3 high, the two-column end game is a chain of slides. */
  lemma NarrowEndGameChain(n: nat)
    requires n >= 3
    ensures Chain(2, n, 2, NarrowEndGame())
  {
    NarrowLinks(n);
    var a, c, d, e := [0, 1, 3, 5], [4, 2, 0, 1], [3, 2, 4, 5], [3, 1, 0, 2];
    Chain4(2, n, 2, 0, 1, 3, 5);
    Chain4(2, n, 5, 4, 2, 0, 1);
    Chain4(2, n, 1, 3, 2, 4, 5);
    Chain4(2, n, 5, 3, 1, 0, 2);
    ChainJoin(2, n, 2, a, c);
    ChainJoin(2, n, 2, a + c, d);
    ChainJoin(2, n, 2, a + c + d, e);
    assert NarrowEndGame() == a + c + d + e;
  }

  /**
   * Over a block with cells `c0` to `c5`, the shuffle brings the tile of `c3` up into `c1`, that of
   * `c5` up into `c3` and that of `c1` down into `c5`; every other cell is as it was, the blank
   * back at `c2`.
   */
  lemma ShuffleEffect(g: seq<int>, c0: int, c1: int, c2: int, c3: int, c4: int, c5: int)
    requires 0 <= c0 < c1 < c2 < c3 < c4 < c5 < |g|
    ensures forall i :: 0 <= i < 16 ==> 0 <= Shuffle(c0, c1, c2, c3, c4, c5)[i] < |g|
    ensures End(c2, Shuffle(c0, c1, c2, c3, c4, c5)) == c2
    ensures Slid(g, c2, Shuffle(c0, c1, c2, c3, c4, c5)) == g[c1 := g[c3]][c3 := g[c5]][c5 := g[c1]]
  {
    var a, c, d, e := [c0, c1, c3, c5], [c4, c2, c0, c1], [c3, c2, c4, c5], [c3, c1, c0, c2];
    Cycle4(g, c2, c0, c1, c3, c5);
    var g1 := Slid(g, c2, a);
    Cycle4(g1, c5, c4, c2, c0, c1);
    var g2 := Slid(g1, c5, c);
    Cycle4(g2, c1, c3, c2, c4, c5);
    var g3 := Slid(g2, c1, d);
    Cycle4(g3, c5, c3, c1, c0, c2);
    var r, want := Slid(g3, c5, e), g[c1 := g[c3]][c3 := g[c5]][c5 := g[c1]];
    forall i | 0 <= i < |g| ensures r[i] == want[i] {
      if i != c0 && i != c1 && i != c2 && i != c3 && i != c4 && i != c5 {
        assert r[i] == g3[i] == g2[i] == g1[i] == g[i];
      }
    }
    assert r == want;
    SlidJoin(g, c2, a, c);
    SlidJoin(g2, c1, d, e);
    SlidJoin(g, c2, a + c, d + e);
  }

  /**
   * The two-column end game brings the tile of cell 3 up into cell 1, that of cell 5 up into
   * cell 3 and that of cell 1 down into cell 5; every other cell is as it was, the blank back at cell 2.
   */
  lemma NarrowEndGameEffect(g: seq<int>)
    requires |g| >= 6
    ensures forall i :: 0 <= i < 16 ==> 0 <= NarrowEndGame()[i] < |g|
    ensures End(2, NarrowEndGame()) == 2
    ensures Slid(g, 2, NarrowEndGame()) == g[1 := g[3]][3 := g[5]][5 := g[1]]
  {
    ShuffleEffect(g, 0, 1, 2, 3, 4, 5);
  }

  /**
   * As written, a board 2 wide gets the general end game with `p = -1`: its first cell is off
   * the board, so it is no chain of slides from the cell the blank is brought to.
   */
  lemma EndGameOffBoard(n: nat)
    ensures EndGame(2)[0] == -1 && !OnBoard(2, n, -1)
    ensures !Chain(2, n, 1, EndGame(2))
  {
    assert !Link(2, n, Before(1, EndGame(2), 0), EndGame(2)[0]);
  }

  /**
   * On a board 2 wide, cell 1 is next to cells 0 and 3 only: no chain of slides that keeps
   * off both, from anywhere but them, ever enters it. So with those two cells frozen, the
   * general end game's `blank([p + m], fs + [p + 2 + m])` cannot bring the blank to cell 1.
   */
  lemma Enclosed(n: nat, b: int, ps: seq<int>)
    requires Chain(2, n, b, ps) && b != 0 && b != 3
    requires forall i :: 0 <= i < |ps| ==> ps[i] != 0 && ps[i] != 3
    ensures forall i :: 0 <= i < |ps| ==> ps[i] != 1
  {
    forall i | 0 <= i < |ps| ensures ps[i] != 1 {
      ChainAt(2, n, b, ps, i);
      AdjacentMembers(2, n, ps[i], Before(b, ps, i));
    }
  }
}
