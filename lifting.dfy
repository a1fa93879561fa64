/**
 * `reduce` solves the board below the top row as a puzzle of its own, turned when that part is
 * wider than high, and appends that puzzle's log to the whole puzzle's log. Cell `i` of the
 * smaller board is cell `Lift(m, turned, w, i)` of the whole board and a slide there is the
 * same slide here, so the smaller puzzle's log plays back on the whole board to the board
 * `reduce` puts together.
 */
module Reduction {
  import opened Wrappers
  import opened Lists
  import opened Grid
  import opened MoveLog

  /** A `w`-wide, `h`-high board is the part of an `m`-wide, `n`-high board below its top row, turned or not. */
  predicate Lowered(m: nat, n: nat, turned: bool, w: nat, h: nat)
  {
    m > 0 && n > 1 && if turned then w == n - 1 && h == m else w == m && h == n - 1
  }

  /** The smaller board back in the whole board's orientation. */
  function Unturn(turned: bool, s: seq<int>, w: nat): seq<int>
  {
    if turned then Transpose(s, w) else s
  }

  /** Where cell `x` of a `w`-wide, `h`-high board goes when the board is read column by column. */
  function Across(x: int, w: nat, h: nat): int
    requires w > 0
  {
    (x % w) * h + x / w
  }

  /** The cell of the whole board that holds cell `i` of the smaller one. */
  function Lift(m: nat, turned: bool, w: nat, i: int): int
    requires w > 0
  {
    if turned then m + Across(i, w, m) else m + i
  }

  /** Cell `i` of the smaller board is one row further down on the whole board, with rows and columns exchanged when it was turned. */
  lemma LiftCell(m: nat, n: nat, turned: bool, w: nat, h: nat, i: int)
    requires Lowered(m, n, turned, w, h) && 0 <= i < w * h
    ensures m <= Lift(m, turned, w, i) < m * n
    ensures Row(m, Lift(m, turned, w, i)) == (if turned then Col(w, i) else Row(w, i)) + 1
    ensures Col(m, Lift(m, turned, w, i)) == (if turned then Row(w, i) else Col(w, i))
  {
    if turned {
      Decompose(i, w, h);
      var r, c := i / w, i % w;
      assert Lift(m, turned, w, i) == (c + 1) * m + r;
      CellAt(m, c + 1, r);
      CellBound(c + 1, r, m, n);
    } else {
      NextCells(m, i);
      assert m * (n - 1) == m * n - m;
    }
  }

  /** `LiftCell` without the rows and columns. */
  lemma LiftBound(m: nat, n: nat, turned: bool, w: nat, h: nat, i: int)
    requires Lowered(m, n, turned, w, h) && 0 <= i < w * h
    ensures m <= Lift(m, turned, w, i) < m * n
  {
    LiftCell(m, n, turned, w, h, i);
  }

  /** A slide on the smaller board is a slide on the whole board. */
  lemma LiftLink(m: nat, n: nat, turned: bool, w: nat, h: nat, z: int, p: int)
    requires Lowered(m, n, turned, w, h) && Link(w, h, z, p)
    ensures 0 <= z < w * h && 0 <= p < w * h
    ensures Link(m, n, Lift(m, turned, w, z), Lift(m, turned, w, p))
  {
    AdjacentCells(w, h, p, z);
    LiftCell(m, n, turned, w, h, z);
    LiftCell(m, n, turned, w, h, p);
    AdjacentCells(m, n, Lift(m, turned, w, p), Lift(m, turned, w, z));
  }

  /** The smaller board has the cells of the whole board but its top row. */
  lemma BelowSize(m: nat, n: nat, turned: bool, w: nat, h: nat)
    requires Lowered(m, n, turned, w, h)
    ensures w > 0 && h > 0 && m + w * h == m * n
  {
    assert m * (n - 1) == m * n - m;
    assert (n - 1) * m == m * (n - 1);
  }

  /** The smaller board, turned back, is as large as it was. */
  lemma UnturnSize(turned: bool, s: seq<int>, w: nat, h: nat)
    requires w > 0 && h > 0 && |s| == w * h
    ensures |Unturn(turned, s, w)| == w * h
  {
    TransposeLength(s, w, h);
  }

  /** Cell `i` of a `w`-wide board is cell `Across(i, w, h)` of its transpose. */
  lemma TransposeTo(s: seq<int>, w: nat, h: nat, i: nat)
    requires w > 0 && h > 0 && |s| == w * h && i < w * h
    ensures |Transpose(s, w)| == w * h && 0 <= Across(i, w, h) < w * h
    ensures Transpose(s, w)[Across(i, w, h)] == s[i]
  {
    Decompose(i, w, h);
    TransposeCell(s, w, h, i / w, i % w, i, Across(i, w, h));
  }

  /** A cell `k` of the board below a top row is cell `l` of the whole board, `l` cells further on. */
  lemma Under(top: seq<int>, u: seq<int>, k: int, l: int)
    requires 0 <= k < |u| && l == |top| + k
    ensures 0 <= l < |top + u| && (top + u)[l] == u[k]
  {
  }

  /** The whole board holds cell `i` of the smaller one at `Lift(m, turned, w, i)`. */
  lemma LiftAt(m: nat, n: nat, turned: bool, w: nat, h: nat, top: seq<int>, s: seq<int>, i: int)
    requires Lowered(m, n, turned, w, h) && |top| == m && |s| == w * h && 0 <= i < |s|
    ensures |top + Unturn(turned, s, w)| == m * n
    ensures m <= Lift(m, turned, w, i) < m * n && (top + Unturn(turned, s, w))[Lift(m, turned, w, i)] == s[i]
  {
    BelowSize(m, n, turned, w, h);
    UnturnSize(turned, s, w, h);
    LiftBound(m, n, turned, w, h, i);
    if turned {
      TransposeTo(s, w, h, i);
      Under(top, Unturn(turned, s, w), Across(i, w, h), Lift(m, turned, w, i));
    } else {
      Under(top, Unturn(turned, s, w), i, Lift(m, turned, w, i));
    }
  }

  /** Reading a cell by columns and back gives it again. */
  lemma AcrossTwice(x: nat, w: nat, h: nat)
    requires w > 0 && h > 0 && x < w * h
    ensures 0 <= Across(x, w, h) < w * h && Across(Across(x, w, h), h, w) == x
  {
    Decompose(x, w, h);
    CellBound(x % w, x / w, h, w);
    assert h * w == w * h;
    DivMod(x % w, x / w, h);
  }

  /** Cell `k` of the transpose holds the cell that goes to `k`. */
  lemma TransposeFrom(s: seq<int>, w: nat, h: nat, k: nat)
    requires w > 0 && h > 0 && |s| == w * h && k < w * h
    ensures |Transpose(s, w)| == w * h && 0 <= Across(k, h, w) < w * h
    ensures Transpose(s, w)[k] == s[Across(k, h, w)]
  {
    assert h * w == w * h;
    Decompose(k, h, w);
    TransposeCell(s, w, h, k % h, k / h, Across(k, h, w), k);
  }

  /** One cell of `TransposeSwap`. */
  lemma TransposeSwapAt(s: seq<int>, w: nat, h: nat, z: nat, p: nat, k: nat)
    requires w > 0 && h > 0 && |s| == w * h && z < w * h && p < w * h && k < w * h
    ensures |Transpose(s, w)| == w * h && |Transpose(Swap(s, z, p), w)| == w * h
    ensures 0 <= Across(z, w, h) < w * h && 0 <= Across(p, w, h) < w * h
    ensures Transpose(Swap(s, z, p), w)[k] == Swap(Transpose(s, w), Across(z, w, h), Across(p, w, h))[k]
  {
    var z', p' := Across(z, w, h), Across(p, w, h);
    AcrossTwice(z, w, h);
    AcrossTwice(p, w, h);
    assert h * w == w * h;
    AcrossTwice(k, h, w);
    var x := Across(k, h, w);
    TransposeFrom(s, w, h, k);
    TransposeFrom(Swap(s, z, p), w, h, k);
    TransposeFrom(s, w, h, z');
    TransposeFrom(s, w, h, p');
    assert x == p <==> k == p';
    assert x == z <==> k == z';
  }

  /** Exchanging two cells, then transposing, is transposing, then exchanging where the two cells went. */
  lemma TransposeSwap(s: seq<int>, w: nat, h: nat, z: nat, p: nat)
    requires w > 0 && h > 0 && |s| == w * h && z < w * h && p < w * h
    ensures 0 <= Across(z, w, h) < w * h && 0 <= Across(p, w, h) < w * h
    ensures |Transpose(s, w)| == w * h
    ensures Transpose(Swap(s, z, p), w) == Swap(Transpose(s, w), Across(z, w, h), Across(p, w, h))
  {
    AcrossTwice(z, w, h);
    AcrossTwice(p, w, h);
    TransposeLength(s, w, h);
    TransposeLength(Swap(s, z, p), w, h);
    var u, v := Transpose(Swap(s, z, p), w), Swap(Transpose(s, w), Across(z, w, h), Across(p, w, h));
    forall k | 0 <= k < w * h ensures u[k] == v[k] {
      TransposeSwapAt(s, w, h, z, p, k);
    }
  }

  /** Exchanging two cells after a fixed prefix. */
  lemma SwapShift(top: seq<int>, t: seq<int>, a: nat, c: nat)
    requires a < |t| && c < |t|
    ensures top + Swap(t, a, c) == Swap(top + t, |top| + a, |top| + c)
  {
    var l, r := top + Swap(t, a, c), Swap(top + t, |top| + a, |top| + c);
    forall k | 0 <= k < |l| ensures l[k] == r[k] {
      if k >= |top| {
        assert l[k] == Swap(t, a, c)[k - |top|];
      }
    }
  }

  /** `SwapShift` with the exchanged board and the two shifted cells named. */
  lemma ShiftedSwap(top: seq<int>, u0: seq<int>, u1: seq<int>, a: nat, c: nat, la: int, lc: int)
    requires a < |u0| && c < |u0| && u1 == Swap(u0, a, c) && la == |top| + a && lc == |top| + c
    ensures 0 <= la < |top + u0| && 0 <= lc < |top + u0|
    ensures top + u1 == Swap(top + u0, la, lc)
  {
    SwapShift(top, u0, a, c);
  }

  /** An exchange on the smaller board is the exchange of the cells they lift to. */
  lemma LiftSwap(m: nat, n: nat, turned: bool, w: nat, h: nat, top: seq<int>, s: seq<int>, z: nat, p: nat)
    requires Lowered(m, n, turned, w, h) && |top| == m && |s| == w * h && z < w * h && p < w * h
    ensures |top + Unturn(turned, s, w)| == m * n
    ensures m <= Lift(m, turned, w, z) < m * n && m <= Lift(m, turned, w, p) < m * n
    ensures top + Unturn(turned, Swap(s, z, p), w) ==
      Swap(top + Unturn(turned, s, w), Lift(m, turned, w, z), Lift(m, turned, w, p))
  {
    BelowSize(m, n, turned, w, h);
    UnturnSize(turned, s, w, h);
    LiftBound(m, n, turned, w, h, z);
    LiftBound(m, n, turned, w, h, p);
    if turned {
      TransposeSwap(s, w, h, z, p);
      ShiftedSwap(top, Unturn(turned, s, w), Unturn(turned, Swap(s, z, p), w), Across(z, w, h), Across(p, w, h),
                  Lift(m, turned, w, z), Lift(m, turned, w, p));
    } else {
      ShiftedSwap(top, s, Swap(s, z, p), z, p, Lift(m, turned, w, z), Lift(m, turned, w, p));
    }
  }

  /** One entry of the smaller puzzle's log, played on the whole board. */
  lemma ApplyLifted(m: nat, n: nat, turned: bool, w: nat, h: nat, top: seq<int>, s: seq<int>, e: Entry, s': seq<int>)
    requires Lowered(m, n, turned, w, h) && |top| == m && |s| == w * h
    requires Apply(w, h, s, e) == Some(s') && Distinct(top + Unturn(turned, s, w))
    ensures |s'| == w * h
    ensures Apply(m, n, top + Unturn(turned, s, w), e) == Some(top + Unturn(turned, s', w))
    ensures Distinct(top + Unturn(turned, s', w))
  {
    if e.Slide? {
      var g := top + Unturn(turned, s, w);
      var p, z := IndexOf(s, e.tile).value, IndexOf(s, 0).value;
      assert Link(w, h, z, p) && s' == Swap(s, z, p);
      LiftLink(m, n, turned, w, h, z, p);
      var lz, lp := Lift(m, turned, w, z), Lift(m, turned, w, p);
      LiftAt(m, n, turned, w, h, top, s, z);
      LiftAt(m, n, turned, w, h, top, s, p);
      DistinctIndex(g, lp);
      DistinctIndex(g, lz);
      LiftSwap(m, n, turned, w, h, top, s, z, p);
      SwapDistinct(g, lz, lp);
    }
  }

  /** The smaller puzzle's log, played on the whole board, ends where the smaller board ends, below the unchanged top row. */
  lemma {:induction false} ReplayLifted(m: nat, n: nat, turned: bool, w: nat, h: nat, top: seq<int>, s0: seq<int>, log: seq<Entry>)
    requires Lowered(m, n, turned, w, h) && |top| == m && |s0| == w * h
    requires Distinct(top + Unturn(turned, s0, w)) && Replay(w, h, s0, log).Some?
    ensures |Replay(w, h, s0, log).value| == w * h
    ensures Replay(m, n, top + Unturn(turned, s0, w), log) == Some(top + Unturn(turned, Replay(w, h, s0, log).value, w))
    ensures Distinct(top + Unturn(turned, Replay(w, h, s0, log).value, w))
    decreases |log|
  {
    if log != [] {
      var front, e := log[..|log| - 1], log[|log| - 1];
      ReplayLifted(m, n, turned, w, h, top, s0, front);
      ApplyLifted(m, n, turned, w, h, top, Replay(w, h, s0, front).value, e, Replay(w, h, s0, log).value);
    }
  }

  /**
   * When the whole board plays back from `origin` through `log0` to `g0`, and the smaller puzzle
   * starts on `g0` below its top row and plays back through `sublog` to `s1`, the joined log
   * plays back to the top row of `g0` above `s1`.
   */
  lemma AbsorbReplays(m: nat, n: nat, turned: bool, w: nat, h: nat, origin: seq<int>, log0: seq<Entry>, g0: seq<int>,
                      s0: seq<int>, sublog: seq<Entry>, s1: seq<int>)
    requires m > 0 && w > 0 && m <= |g0|
    ensures (Lowered(m, n, turned, w, h) && |s0| == w * h && Replay(m, n, origin, log0) == Some(g0) && Distinct(g0) &&
             Unturn(turned, s0, w) == g0[m..] && Replay(w, h, s0, sublog) == Some(s1)) ==>
      Replay(m, n, origin, log0 + sublog) == Some(g0[..m] + Unturn(turned, s1, w)) && Distinct(g0[..m] + Unturn(turned, s1, w))
  {
    if Lowered(m, n, turned, w, h) && |s0| == w * h && Replay(m, n, origin, log0) == Some(g0) && Distinct(g0) &&
      Unturn(turned, s0, w) == g0[m..] && Replay(w, h, s0, sublog) == Some(s1)
    {
      assert g0[..m] + g0[m..] == g0;
      ReplayLifted(m, n, turned, w, h, g0[..m], s0, sublog);
      ReplayAppend(m, n, origin, log0, sublog);
    }
  }
}
