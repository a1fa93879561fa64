/**
 * Inversion parity, as the scrambler counts it: a pair of positive tiles out of order, the
 * blank (and anything not positive) being ignored. Sliding a tile across the blank's row
 * moves it past the `m - 1` tiles in between, so the parity of the inversions, together with
 * the blank's row when `m` is even, never changes: that class splits the boards into the two
 * halves that no slide can cross.
 */
module Parity {
  import opened Wrappers
  import opened Lists
  import opened Grid

  /** How many positive entries of `s` are below `x`. */
  function Below(x: int, s: seq<int>): (r: nat)
    ensures r <= |s|
    decreases |s|
  {
    if s == [] then 0 else (if 0 < s[0] < x then 1 else 0) + Below(x, s[1..])
  }

  /** Pairs `i < j` with `0 < g[j] < g[i]`, counted from the front as the generator does. */
  function Inversions(g: seq<int>): nat
    decreases |g|
  {
    if g == [] then 0 else Below(g[0], g[1..]) + Inversions(g[1..])
  }

  lemma {:induction false} BelowAppend(x: int, a: seq<int>, c: seq<int>)
    ensures Below(x, a + c) == Below(x, a) + Below(x, c)
    decreases |a|
  {
    if a == [] {
      assert a + c == c;
    } else {
      assert (a + c)[1..] == a[1..] + c;
      BelowAppend(x, a[1..], c);
    }
  }

  /** The parity of `k`: 0 or 1. */
  function Mod2(k: int): nat { k % 2 }

  /** What exchanging two neighbouring entries `u, v` does to the count. */
  function Delta(u: int, v: int): int
  {
    if 0 < v < u then 1 else if 0 < u < v then -1 else 0
  }

  lemma {:induction false} InversionsCons(x: int, s: seq<int>)
    ensures Inversions([x] + s) == Below(x, s) + Inversions(s)
  {
    assert ([x] + s)[1..] == s;
  }

  /** The entries below `x` do not depend on the order of two neighbours. */
  lemma {:induction false} BelowSwap(x: int, s: seq<int>, u: int, v: int, t: seq<int>)
    ensures Below(x, s + [u, v] + t) == Below(x, s + [v, u] + t)
  {
    var a, c := [u, v] + t, [v, u] + t;
    assert Below(x, a) == Below(x, c) by {
      assert a[1..] == [v] + t && a[1..][1..] == t;
      assert c[1..] == [u] + t && c[1..][1..] == t;
    }
    assert s + [u, v] + t == s + a && s + [v, u] + t == s + c;
    BelowAppend(x, s, a);
    BelowAppend(x, s, c);
  }

  /** Exchanging the first two entries changes the count by `Delta`. */
  lemma {:induction false} SwapFront(u: int, v: int, t: seq<int>)
    ensures Inversions([u, v] + t) == Inversions([v, u] + t) + Delta(u, v)
  {
    assert [u, v] + t == [u] + ([v] + t) && [v, u] + t == [v] + ([u] + t);
    InversionsCons(u, [v] + t);
    InversionsCons(v, [u] + t);
    InversionsCons(v, t);
    InversionsCons(u, t);
    BelowAppend(u, [v], t);
    BelowAppend(v, [u], t);
    assert Below(u, [v]) == (if 0 < v < u then 1 else 0) by { assert [v][1..] == []; }
    assert Below(v, [u]) == (if 0 < u < v then 1 else 0) by { assert [u][1..] == []; }
  }

  /** Exchanging two neighbouring entries changes the count by `Delta`, wherever they stand. */
  lemma {:induction false} SwapInside(s: seq<int>, u: int, v: int, t: seq<int>)
    ensures Inversions(s + [u, v] + t) == Inversions(s + [v, u] + t) + Delta(u, v)
    decreases |s|
  {
    if s == [] {
      assert s + [u, v] + t == [u, v] + t && s + [v, u] + t == [v, u] + t;
      SwapFront(u, v, t);
    } else {
      var s' := s[1..];
      assert s + [u, v] + t == [s[0]] + (s' + [u, v] + t);
      assert s + [v, u] + t == [s[0]] + (s' + [v, u] + t);
      InversionsCons(s[0], s' + [u, v] + t);
      InversionsCons(s[0], s' + [v, u] + t);
      BelowSwap(s[0], s', u, v, t);
      SwapInside(s', u, v, t);
    }
  }

  /** Carrying an entry that is not positive across a block changes nothing. */
  lemma {:induction false} BlankAcross(s: seq<int>, z: int, block: seq<int>, t: seq<int>)
    requires z <= 0
    ensures Inversions(s + [z] + block + t) == Inversions(s + block + [z] + t)
    decreases |block|
  {
    if block != [] {
      var y, rest := block[0], block[1..];
      var before, after := s + [z] + block + t, s + block + [z] + t;
      var mid := (s + [y]) + [z] + rest + t;
      assert before == s + [z, y] + (rest + t);
      assert mid == s + [y, z] + (rest + t);
      assert after == (s + [y]) + rest + [z] + t;
      SwapInside(s, z, y, rest + t);
      assert Inversions(before) == Inversions(mid) + Delta(z, y);
      BlankAcross(s + [y], z, rest, t);
      assert Inversions(mid) == Inversions(after);
    } else {
      assert s + [z] + block + t == s + block + [z] + t;
    }
  }

  /** Carrying a tile across a block of other tiles changes the count by the block's length, modulo 2. */
  lemma {:induction false} TileAcross(s: seq<int>, x: int, block: seq<int>, t: seq<int>)
    requires x > 0 && forall k :: 0 <= k < |block| ==> block[k] > 0 && block[k] != x
    ensures Mod2(Inversions(s + [x] + block + t) + |block|) == Mod2(Inversions(s + block + [x] + t))
    decreases |block|
  {
    if block != [] {
      var y, rest := block[0], block[1..];
      var before, after := s + [x] + block + t, s + block + [x] + t;
      var mid := (s + [y]) + [x] + rest + t;
      assert before == s + [x, y] + (rest + t);
      assert mid == s + [y, x] + (rest + t);
      assert after == (s + [y]) + rest + [x] + t;
      SwapInside(s, x, y, rest + t);
      assert Inversions(before) == Inversions(mid) + Delta(x, y);
      assert Delta(x, y) == 1 || Delta(x, y) == -1;
      TileAcross(s + [y], x, rest, t);
      assert Mod2(Inversions(mid) + |rest|) == Mod2(Inversions(after));
    } else {
      assert s + [x] + block + t == s + block + [x] + t;
    }
  }

  /**
   * The class of a board with the blank at `b`: the parity of the inversions, plus the blank's
   * row when the rows have an even number of cells.
   */
  function Class(m: nat, g: seq<int>, b: int): nat
    requires m > 0
  {
    Mod2(if m % 2 == 1 then Inversions(g) else Inversions(g) + Row(m, b))
  }

  /** Every entry is a tile (positive) except the single blank. */
  predicate Tiles(g: seq<int>)
  {
    Distinct(g) && forall k :: 0 <= k < |g| ==> g[k] >= 0
  }

  /** A board cut around the cells `lo < hi`, before and after their exchange. */
  lemma {:induction false} Split(g: seq<int>, lo: nat, hi: nat, x: int) returns (block: seq<int>)
    requires lo < hi < |g|
    requires forall k :: lo < k < hi ==> g[k] > 0 && g[k] != x
    ensures block == g[lo + 1..hi] && |block| == hi - lo - 1
    ensures g == g[..lo] + [g[lo]] + block + [g[hi]] + g[hi + 1..]
    ensures Swap(g, lo, hi) == Swap(g, hi, lo) == g[..lo] + [g[hi]] + block + [g[lo]] + g[hi + 1..]
    ensures forall k :: 0 <= k < |block| ==> block[k] > 0 && block[k] != x
  {
    block := g[lo + 1..hi];
    forall k | 0 <= k < |block| ensures block[k] > 0 && block[k] != x {
      assert block[k] == g[lo + 1 + k];
    }
  }

  lemma {:induction false} TileAcrossAt(before: seq<int>, after: seq<int>, s: seq<int>, x: int, block: seq<int>, t: seq<int>)
    requires x > 0 && forall k :: 0 <= k < |block| ==> block[k] > 0 && block[k] != x
    requires before == s + [x] + block + t && after == s + block + [x] + t
    ensures Mod2(Inversions(before) + |block|) == Mod2(Inversions(after))
  {
    TileAcross(s, x, block, t);
  }

  /** Exchanging the blank with a tile further on: the tile crosses the block in between. */
  lemma {:induction false} CarryTile(before: seq<int>, after: seq<int>, s: seq<int>, x: int, block: seq<int>, t: seq<int>, gap: int)
    requires x > 0 && forall k :: 0 <= k < |block| ==> block[k] > 0 && block[k] != x
    requires before == s + [0] + block + [x] + t && after == s + [x] + block + [0] + t && gap == |block|
    ensures Mod2(Inversions(after) + gap) == Mod2(Inversions(before))
    ensures Mod2(Inversions(before) + gap) == Mod2(Inversions(after))
  {
    var mid, mid' := s + block + [0] + ([x] + t), s + block + [x] + ([0] + t);
    assert Inversions(before) == Inversions(mid) by {
      assert before == s + [0] + block + ([x] + t);
      BlankAcross(s, 0, block, [x] + t);
    }
    assert Inversions(mid) == Inversions(mid') by {
      assert mid == (s + block) + [0, x] + t && mid' == (s + block) + [x, 0] + t;
      SwapInside(s + block, 0, x, t);
    }
    TileAcrossAt(after, mid', s, x, block, [0] + t);
    ModFlip(Inversions(after), Inversions(before), gap);
  }

  lemma {:induction false} ModFlip(a: int, b: int, k: int)
    requires Mod2(a + k) == Mod2(b)
    ensures Mod2(b + k) == Mod2(a)
  {
  }

  /** Exchanging cells `z < p` that hold the blank and a tile, the blank first. */
  lemma {:induction false} BlankFirst(g: seq<int>, r: seq<int>, z: nat, p: nat)
    requires z < p < |g| && g[z] == 0 && g[p] > 0 && r == Swap(g, z, p)
    requires forall k :: z < k < p ==> g[k] > 0 && g[k] != g[p]
    ensures Mod2(Inversions(r) + (p - z - 1)) == Mod2(Inversions(g))
  {
    var block := Split(g, z, p, g[p]);
    CarryTile(g, r, g[..z], g[p], block, g[p + 1..], p - z - 1);
  }

  /** In a board of tiles, the cells strictly between the blank and a tile hold other tiles. */
  lemma {:induction false} Between(g: seq<int>, lo: nat, hi: nat, x: nat)
    requires lo < hi < |g| && Tiles(g) && (g[lo] == 0 || g[hi] == 0) && (x == lo || x == hi) && g[x] != 0
    ensures g[x] > 0 && forall k :: lo < k < hi ==> g[k] > 0 && g[k] != g[x]
  {
    forall k | lo < k < hi ensures g[k] > 0 && g[k] != g[x] {
      assert g[k] != g[lo] && g[k] != g[hi];
    }
  }

  /** A slide changes the inversions by the number of cells strictly between blank and tile, modulo 2. */
  lemma {:induction false} SwapParity(g: seq<int>, z: nat, p: nat)
    requires z < |g| && p < |g| && z != p && Tiles(g) && g[z] == 0
    ensures z < p ==> Mod2(Inversions(Swap(g, z, p)) + (p - z - 1)) == Mod2(Inversions(g))
    ensures p < z ==> Mod2(Inversions(Swap(g, z, p)) + (z - p - 1)) == Mod2(Inversions(g))
  {
    assert g[p] != 0 by { assert g[p] != g[z]; }
    if z < p {
      Between(g, z, p, p);
      BlankFirst(g, Swap(g, z, p), z, p);
    } else {
      Between(g, p, z, p);
      TileFirst(g, Swap(g, z, p), z, p);
    }
  }

  /** Exchanging cells `p < z` that hold a tile and the blank: the same exchange read backwards. */
  lemma {:induction false} TileFirst(g: seq<int>, r: seq<int>, z: nat, p: nat)
    requires p < z < |g| && g[z] == 0 && g[p] > 0 && r == Swap(g, z, p)
    requires forall k :: p < k < z ==> g[k] > 0 && g[k] != g[p]
    ensures Mod2(Inversions(r) + (z - p - 1)) == Mod2(Inversions(g))
  {
    var block := Split(g, p, z, g[p]);
    CarryTile(r, g, g[..p], g[p], block, g[z + 1..], z - p - 1);
  }

  /** Slides keep the values distinct and non-negative. */
  lemma {:induction false} TilesKept(g: seq<int>, r: seq<int>)
    requires Tiles(g) && multiset(r) == multiset(g)
    ensures forall k :: 0 <= k < |r| ==> r[k] >= 0
  {
    forall k | 0 <= k < |r| ensures r[k] >= 0 {
      assert r[k] in multiset(r);
      var j :| 0 <= j < |g| && g[j] == r[k];
    }
  }

  /** The arithmetic of one slide: a step along the row, or a step across it past `m - 1` tiles. */
  lemma {:induction false} ClassStep(m: nat, i: int, i': int, r: int, r': int, gap: int)
    requires m > 0 && Mod2(i' + gap) == Mod2(i)
    requires (gap == 0 && r' == r) || (gap == m - 1 && (r' == r + 1 || r' == r - 1))
    ensures (if m % 2 == 1 then Mod2(i') else Mod2(i' + r')) == (if m % 2 == 1 then Mod2(i) else Mod2(i + r))
  {
  }

  /** A slide steps along the row past no cell, or across rows past the `m - 1` cells in between. */
  lemma {:induction false} SlideRows(m: nat, n: nat, z: int, p: int)
    requires m > 0 && Link(m, n, z, p)
    ensures var gap := if z < p then p - z - 1 else z - p - 1;
      (gap == 0 && Row(m, p) == Row(m, z)) ||
      (gap == m - 1 && (Row(m, p) == Row(m, z) + 1 || Row(m, p) == Row(m, z) - 1))
  {
    AdjacentMembers(m, n, p, z);
    NextCells(m, p);
    if z == p + 1 {
      NextCells(m, z);
    }
  }

  /** One legal slide keeps the class. */
  lemma {:induction false} SlideClass(m: nat, n: nat, g: seq<int>, z: nat, p: nat)
    requires m > 0 && |g| == m * n && z < |g| && g[z] == 0 && Tiles(g) && Link(m, n, z, p)
    ensures 0 <= p < |g| && Class(m, Swap(g, z, p), p) == Class(m, g, z)
  {
    var i, i' := Inversions(g), Inversions(Swap(g, z, p));
    var gap := if z < p then p - z - 1 else z - p - 1;
    SlideRows(m, n, z, p);
    SwapParity(g, z, p);
    ClassStep(m, i, i', Row(m, z), Row(m, p), gap);
  }

  /** No chain of legal slides changes the class: boards of different classes never meet. */
  lemma {:induction false} ClassInvariant(m: nat, n: nat, g: seq<int>, b: nat, ps: seq<int>)
    requires m > 0 && |g| == m * n && b < |g| && g[b] == 0 && Tiles(g) && Chain(m, n, b, ps)
    ensures forall i :: 0 <= i < |ps| ==> 0 <= ps[i] < |g|
    ensures Class(m, Slid(g, b, ps), End(b, ps)) == Class(m, g, b)
    decreases |ps|
  {
    ChainOnBoard(m, n, b, ps);
    if ps != [] {
      var k := |ps| - 1;
      var front := ps[..k];
      assert ps[..k + 1] == ps;
      ChainPrefix(m, n, b, ps, k);
      assert forall i :: 0 <= i < k ==> front[i] == ps[i];
      ClassInvariant(m, n, g, b, front);
      SlidFacts(g, b, front);
      var h := Slid(g, b, front);
      TilesKept(g, h);
      SlideClass(m, n, h, End(b, front), ps[k]);
    }
  }

  /**
   * The position `sorted((0, 1, 2), key=...)` puts first: the first of the three leading cells
   * holding their least value (the sort is stable). The other two are exchanged to fix the parity.
   */
  function Kept(g: seq<int>): (k: nat)
    requires |g| >= 3
    ensures k < 3 && g[k] <= g[0] && g[k] <= g[1] && g[k] <= g[2]
    ensures forall j :: 0 <= j < k ==> g[j] > g[k]
  {
    if g[0] <= g[1] && g[0] <= g[2] then 0 else if g[1] <= g[2] then 1 else 2
  }

  /** The board with the two larger of its three leading values exchanged. */
  function ParityFix(g: seq<int>): seq<int>
    requires |g| >= 3
  {
    var k := Kept(g);
    if k == 0 then Swap(g, 1, 2) else if k == 1 then Swap(g, 0, 2) else Swap(g, 0, 1)
  }

  /** `SwapInside` for boards given by name. */
  lemma {:induction false} SwapAt(before: seq<int>, after: seq<int>, s: seq<int>, u: int, v: int, t: seq<int>)
    requires before == s + [u, v] + t && after == s + [v, u] + t
    ensures Inversions(before) == Inversions(after) + Delta(u, v)
  {
    SwapInside(s, u, v, t);
  }

  /** Three exchanges of neighbours carry `[a, c, d]` to `[d, c, a]`. */
  lemma {:induction false} OuterSwap(a: int, c: int, d: int, t: seq<int>)
    ensures Inversions([a, c, d] + t) == Inversions([d, c, a] + t) + Delta(a, c) + Delta(a, d) + Delta(c, d)
  {
    var g0, g1, g2, g3 := [a, c, d] + t, [c, a, d] + t, [c, d, a] + t, [d, c, a] + t;
    SwapAt(g0, g1, [], a, c, [d] + t);
    SwapAt(g1, g2, [c], a, d, t);
    SwapAt(g2, g3, [], c, d, [a] + t);
  }

  /** Exchanging two neighbouring tiles flips the parity. */
  lemma {:induction false} FlipAt(before: seq<int>, after: seq<int>, s: seq<int>, u: int, v: int, t: seq<int>)
    requires u > 0 && v > 0 && u != v
    requires before == s + [u, v] + t && after == s + [v, u] + t
    ensures Mod2(Inversions(after)) != Mod2(Inversions(before))
  {
    SwapInside(s, u, v, t);
  }

  /** Exchanging two tiles one cell apart flips the parity, whether the cell between is a tile or the blank. */
  lemma {:induction false} FlipOuter(before: seq<int>, after: seq<int>, a: int, c: int, d: int, t: seq<int>)
    requires a > 0 && d > 0 && c >= 0 && a != d && c != a && c != d
    requires before == [a, c, d] + t && after == [d, c, a] + t
    ensures Mod2(Inversions(after)) != Mod2(Inversions(before))
  {
    OuterSwap(a, c, d, t);
  }

  /** The three boards the fix can produce, written out. */
  lemma {:induction false} FixShape(g: seq<int>)
    requires |g| >= 3
    ensures g == [g[0], g[1], g[2]] + g[3..]
    ensures Kept(g) == 0 ==> ParityFix(g) == [g[0], g[2], g[1]] + g[3..]
    ensures Kept(g) == 1 ==> ParityFix(g) == [g[2], g[1], g[0]] + g[3..]
    ensures Kept(g) == 2 ==> ParityFix(g) == [g[1], g[0], g[2]] + g[3..]
  {
  }

  /** Exchanging two of the three leading values, none of them negative, flips the parity. */
  lemma {:induction false} FixFlips(g: seq<int>)
    requires |g| >= 3 && g[0] >= 0 && g[1] >= 0 && g[2] >= 0
    requires g[0] != g[1] && g[0] != g[2] && g[1] != g[2]
    ensures Mod2(Inversions(ParityFix(g))) != Mod2(Inversions(g))
  {
    FixShape(g);
    var a, c, d, t := g[0], g[1], g[2], g[3..];
    match Kept(g)
    case 0 => FlipSecond(g, ParityFix(g), a, c, d, t);
    case 1 => FlipOuter(g, ParityFix(g), a, c, d, t);
    case 2 => FlipFirst(g, ParityFix(g), a, c, d, t);
  }

  lemma {:induction false} FlipFirst(before: seq<int>, after: seq<int>, a: int, c: int, d: int, t: seq<int>)
    requires a > 0 && c > 0 && a != c
    requires before == [a, c, d] + t && after == [c, a, d] + t
    ensures Mod2(Inversions(after)) != Mod2(Inversions(before))
  {
    assert before == [] + [a, c] + ([d] + t) && after == [] + [c, a] + ([d] + t);
    FlipAt(before, after, [], a, c, [d] + t);
  }

  lemma {:induction false} FlipSecond(before: seq<int>, after: seq<int>, a: int, c: int, d: int, t: seq<int>)
    requires c > 0 && d > 0 && c != d
    requires before == [a, c, d] + t && after == [a, d, c] + t
    ensures Mod2(Inversions(after)) != Mod2(Inversions(before))
  {
    assert before == [a] + [c, d] + t && after == [a] + [d, c] + t;
    FlipAt(before, after, [a], c, d, t);
  }

  /** The fix only exchanges values: the board keeps its tiles, and the blank its cell. */
  lemma {:induction false} FixKeeps(g: seq<int>)
    requires |g| >= 3 && Tiles(g)
    ensures multiset(ParityFix(g)) == multiset(g) && Tiles(ParityFix(g))
    ensures forall b :: 0 <= b < |g| && g[b] == 0 ==> ParityFix(g)[b] == 0
  {
    var k := Kept(g);
    var i, j := if k == 0 then 1 else 0, if k == 2 then 1 else 2;
    assert ParityFix(g) == Swap(g, i, j);
    SwapMultiset(g, i, j);
    SwapDistinct(g, i, j);
    TilesKept(g, ParityFix(g));
    forall b | 0 <= b < |g| && g[b] == 0 ensures ParityFix(g)[b] == 0 {
      assert b != i && b != j by {
        assert g[i] > g[k] >= 0 && g[j] > g[k] by { assert g[i] != g[k] && g[j] != g[k]; }
      }
    }
  }

  /** A flip of the parity of the inversions flips the class, for the same blank cell. */
  lemma {:induction false} ClassFlip(m: nat, g: seq<int>, r: seq<int>, b: nat)
    requires m > 0 && Mod2(Inversions(r)) != Mod2(Inversions(g))
    ensures Class(m, r, b) != Class(m, g, b) && Class(m, r, b) + Class(m, g, b) == 1
  {
    var i, i' := Inversions(g), Inversions(r);
    if m % 2 == 0 {
      ParityOf(i, i', Row(m, b));
    }
  }

  lemma {:induction false} ParityOf(i: int, i': int, k: int)
    requires Mod2(i) != Mod2(i')
    ensures Mod2(i + k) != Mod2(i' + k)
  {
  }

  /** The scrambler's test as written: odd parity for odd `m`, even class for even `m`. */
  predicate NeedsFixAsWritten(m: nat, g: seq<int>, b: nat)
    requires m > 0
  {
    (m % 2 == 1 && Mod2(Inversions(g)) == 1) || (m % 2 == 0 && Mod2(Inversions(g) + b / m) == 0)
  }

  /** The scrambler's test corrected: fix the board when its class differs from the target's. */
  predicate NeedsFix(m: nat, g: seq<int>, b: nat, target: seq<int>)
    requires m > 0 && target != []
  {
    Class(m, g, b) != Class(m, target, |target| - 1)
  }

  /** The three leading cells of a board of tiles hold distinct values, none negative. */
  lemma {:induction false} Leading(g: seq<int>)
    requires |g| >= 3 && Tiles(g)
    ensures g[0] >= 0 && g[1] >= 0 && g[2] >= 0 && g[0] != g[1] && g[0] != g[2] && g[1] != g[2]
  {
  }

  /**
   * The scrambler's rule as written always leaves the same class, whatever the target: 0 when
   * `m` is odd and 1 when `m` is even.
   */
  lemma {:induction false} ScrambleAsWrittenClass(m: nat, g: seq<int>, b: nat)
    requires m > 0 && |g| >= 3 && Tiles(g) && b < |g| && g[b] == 0
    ensures var r := if NeedsFixAsWritten(m, g, b) then ParityFix(g) else g;
      r[b] == 0 && Class(m, r, b) == (if m % 2 == 1 then 0 else 1)
  {
    Leading(g);
    FixFlips(g);
    FixKeeps(g);
    ClassFlip(m, g, ParityFix(g), b);
  }

  /** The corrected rule leaves the class of the target, with the blank where the shuffle put it. */
  lemma {:induction false} ScrambleClass(m: nat, g: seq<int>, b: nat, target: seq<int>, last: int, r: seq<int>)
    requires m > 0 && |g| >= 3 && b < |g| && g[b] == 0 && target != [] && last == |target| - 1
    requires r == if NeedsFix(m, g, b, target) then ParityFix(g) else g
    ensures Tiles(g) ==> r[b] == 0 && Tiles(r) && multiset(r) == multiset(g) && Class(m, r, b) == Class(m, target, last)
  {
    if !Tiles(g) {
      return;
    }
    Leading(g);
    FixFlips(g);
    FixKeeps(g);
    ClassFlip(m, g, ParityFix(g), b);
  }

  /** In a board of distinct values with the blank last, the blank is nowhere else. */
  lemma {:induction false} BlankLast(target: seq<int>, e: nat)
    requires Distinct(target) && e < |target| && target[|target| - 1] == 0
    ensures target[e] == 0 ==> e == |target| - 1
  {
  }

  /** No chain of slides reaches a target, blank last, whose class differs from the board's. */
  lemma {:induction false} ClassesApart(m: nat, n: nat, g: seq<int>, b: nat, ps: seq<int>, target: seq<int>)
    requires m > 0 && |g| == m * n && b < |g| && g[b] == 0 && Tiles(g) && Chain(m, n, b, ps)
    requires |target| == |g| && Distinct(target) && target[|target| - 1] == 0
    requires Class(m, target, |target| - 1) != Class(m, g, b)
    ensures forall i :: 0 <= i < |ps| ==> 0 <= ps[i] < |g|
    ensures Slid(g, b, ps) != target
  {
    ClassInvariant(m, n, g, b, ps);
    SlidFacts(g, b, ps);
    BlankLast(target, End(b, ps));
  }

  /** The ordered 2 x 3 board is in class 0 and needs a fix by the rule as written. */
  lemma {:induction false} OrderedBoard()
    ensures NeedsFixAsWritten(2, [1, 2, 3, 4, 5, 0], 5) && Class(2, [1, 2, 3, 4, 5, 0], 5) == 0
  {
    assert Inversions([1, 2, 3, 4, 5, 0]) == 0;
  }

  /** What the rule as written leaves of it is in class 1. */
  lemma {:induction false} FixedBoard()
    ensures Class(2, [1, 3, 2, 4, 5, 0], 5) == 1
  {
    assert Inversions([1, 3, 2, 4, 5, 0]) == 1;
  }

  lemma {:induction false} FixedTiles()
    ensures ParityFix([1, 2, 3, 4, 5, 0]) == [1, 3, 2, 4, 5, 0]
    ensures Tiles([1, 3, 2, 4, 5, 0]) && Distinct([1, 2, 3, 4, 5, 0])
  {
  }

  /**
   * On a 2 x 3 board whose target is the ordered board, the rule as written fixes the shuffle
   * that happens to be the target itself, and no chain of slides gets back from what it leaves.
   */
  lemma {:induction false} ScrambleAsWrittenStuck(ps: seq<int>)
    requires Chain(2, 3, 5, ps)
    ensures NeedsFixAsWritten(2, [1, 2, 3, 4, 5, 0], 5) && ParityFix([1, 2, 3, 4, 5, 0]) == [1, 3, 2, 4, 5, 0]
    ensures forall i :: 0 <= i < |ps| ==> 0 <= ps[i] < 6
    ensures Slid([1, 3, 2, 4, 5, 0], 5, ps) != [1, 2, 3, 4, 5, 0]
  {
    OrderedBoard();
    FixedBoard();
    FixedTiles();
    ClassesApart(2, 3, [1, 3, 2, 4, 5, 0], 5, ps, [1, 2, 3, 4, 5, 0]);
  }
}
