/**
 * The puzzle itself: an `m` by `n` board in the working orientation (never wider than it is
 * high), the target board, the blank's cell and the move log. The solver places the top row
 * tile by tile, then solves the board without its top row as a puzzle of its own, down to a
 * 2 by 2 board whose result it checks against the target.
 */
module SlidingPuzzle {
  import opened Wrappers
  import opened Lists
  import opened Grid
  import opened MoveLog
  import opened Router
  import opened Parity
  import opened Maneuvers
  import opened Reduction

  /** What the constructor settles on: the working orientation and the boards in it. */
  datatype Setup = Setup(m: nat, n: nat, flipped: bool, grid: seq<int>, target: seq<int>, b: nat)

  /** Why the constructor refuses its arguments. */
  datatype SetupError =
    | Dimensions     // a side shorter than 2
    | InitialLength  // the initial board does not have m * n cells
    | TargetShape    // the target does not have m * n cells, or its last cell is not the blank
    | NoBlank        // the initial board has no blank

  /** The default initial board `1, 2, ..., k - 1, 0`. */
  function Ordered(k: nat): (r: seq<int>)
    requires k > 0
    ensures |r| == k && r[k - 1] == 0 && forall i :: 0 <= i < k - 1 ==> r[i] == i + 1
  {
    seq(k, i => if i < k - 1 then i + 1 else 0)
  }

  /** A board of width `m0` and height `n0` in the working orientation: transposed when wider than high. */
  function Orient(m0: nat, n0: nat, s: seq<int>): seq<int>
  {
    if m0 > n0 then Transpose(s, m0) else s
  }

  /**
   * Orienting keeps the board's size, its values and its last cell, and transposing a flipped
   * board back with the working width gives the board again.
   */
  lemma OrientFacts(m0: nat, n0: nat, s: seq<int>)
    requires m0 > 0 && n0 > 0 && |s| == m0 * n0
    ensures |Orient(m0, n0, s)| == m0 * n0
    ensures Orient(m0, n0, s)[m0 * n0 - 1] == s[m0 * n0 - 1]
    ensures forall v :: v in Orient(m0, n0, s) <==> v in s
    ensures m0 > n0 ==> Transpose(Orient(m0, n0, s), n0) == s
  {
    OrientShape(m0, n0, s);
    if m0 > n0 {
      TransposeHas(s, m0, n0);
    }
  }

  /** The size, last cell and way back of `OrientFacts`, without the facts about values. */
  lemma OrientShape(m0: nat, n0: nat, s: seq<int>)
    requires m0 > 0 && n0 > 0 && |s| == m0 * n0
    ensures |Orient(m0, n0, s)| == m0 * n0
    ensures Orient(m0, n0, s)[m0 * n0 - 1] == s[m0 * n0 - 1]
    ensures m0 > n0 ==> Transpose(Orient(m0, n0, s), n0) == s
  {
    if m0 > n0 {
      TransposeTwice(s, m0, n0);
      TransposeLast(s, m0, n0);
    }
  }

  /**
   * The constructor's checks and set-up: a board wider than it is high is transposed (both the
   * initial board and the target), so that the working width `m` is at most the height `n`;
   * the blank is where the initial board first has a 0.
   */
  function Configure(m0: nat, n0: nat, target: seq<int>, initial: Option<seq<int>>): (r: Result<Setup, SetupError>)
  {
    if !(m0 > 1 && n0 > 1) then Err(Dimensions)
    else
      var init := Initial(m0, n0, initial);
      if |init| != m0 * n0 then Err(InitialLength)
      else if |target| != m0 * n0 || target[|target| - 1] != 0 then Err(TargetShape)
      else
        var g := Orient(m0, n0, init);
        match IndexOf(g, 0)
        case None => Err(NoBlank)
        case Some(b) =>
          Ok(Setup(if m0 > n0 then n0 else m0, if m0 > n0 then m0 else n0, m0 > n0, g, Orient(m0, n0, target), b))
  }

  /** A set-up in working orientation: no wider than high, a target ending in the blank, the blank in place. */
  predicate WellFormed(s: Setup)
  {
    1 < s.m <= s.n && |s.grid| == s.m * s.n && |s.target| == s.m * s.n && s.target[s.m * s.n - 1] == 0 &&
    s.b < |s.grid| && s.grid[s.b] == 0
  }

  /** The initial board the constructor starts from: the one given, or the ordered one. */
  function Initial(m0: nat, n0: nat, initial: Option<seq<int>>): seq<int>
  {
    if initial.Some? then initial.value else if m0 * n0 > 0 then Ordered(m0 * n0) else []
  }

  /** The constructor refuses exactly the malformed arguments. */
  lemma ConfigureRefuses(m0: nat, n0: nat, target: seq<int>, initial: Option<seq<int>>)
    ensures var init := Initial(m0, n0, initial);
      Configure(m0, n0, target, initial).Err? <==>
        m0 < 2 || n0 < 2 || |init| != m0 * n0 || |target| != m0 * n0 || target[|target| - 1] != 0 || 0 !in init
  {
    var init := Initial(m0, n0, initial);
    if m0 > 1 && n0 > 1 && |init| == m0 * n0 {
      OrientFacts(m0, n0, init);
    }
  }

  /**
   * What the constructor accepts is a board in the working orientation, no wider than high,
   * with the blank at the first 0 and a target whose last cell is the blank. Transposing back
   * with the working width gives the arguments again.
   */
  lemma ConfigureSetup(m0: nat, n0: nat, target: seq<int>, initial: Option<seq<int>>)
    requires Configure(m0, n0, target, initial).Ok?
    ensures var s := Configure(m0, n0, target, initial).value;
      WellFormed(s) && s.m * s.n == m0 * n0 && IndexOf(s.grid, 0) == Some(s.b) &&
      (s.flipped <==> m0 > n0) && (s.flipped ==> s.m == n0 && s.n == m0) && (!s.flipped ==> s.m == m0 && s.n == n0)
    ensures var s := Configure(m0, n0, target, initial).value;
      var init := Initial(m0, n0, initial);
      (s.flipped ==> Transpose(s.grid, s.m) == init && Transpose(s.target, s.m) == target) &&
      (!s.flipped ==> s.grid == init && s.target == target)
  {
    ConfigureUnfold(m0, n0, target, initial);
    SetupFacts(m0, n0, Initial(m0, n0, initial), target, Configure(m0, n0, target, initial).value);
  }

  /** A well-formed set-up has at least two rows and its blank on the board. */
  lemma SetupShape(s: Setup)
    requires WellFormed(s)
    ensures 2 * s.m <= |s.grid| && s.b < s.m * s.n
  {
    MulMono(2, s.n, s.m);
  }

  /**
   * `Puzzle(m, n, target, initial)`: the puzzle on the set-up `Configure` makes of the arguments,
   * with an empty log, or the reason the constructor refuses them.
   */
  method Create(m0: nat, n0: nat, target0: seq<int>, initial: Option<seq<int>>) returns (r: Result<Puzzle, SetupError>)
    ensures r.Err? <==> Configure(m0, n0, target0, initial).Err?
    ensures r.Err? ==> r.error == Configure(m0, n0, target0, initial).error
    ensures r.Ok? ==> var p, s := r.value, Configure(m0, n0, target0, initial).value;
      fresh(p) && p.m == s.m && p.n == s.n && p.flipped == s.flipped && p.grid == s.grid && p.target == s.target &&
      p.b == s.b && p.moves == [] && p.origin == p.grid && p.Ready() && p.Tracks()
    ensures r.Ok? && Distinct(Initial(m0, n0, initial)) ==> r.value.Replays()
  {
    var setup := Configure(m0, n0, target0, initial);
    if setup.Err? {
      return Err(setup.error);
    }
    assert WellFormed(setup.value) by {
      ConfigureSetup(m0, n0, target0, initial);
    }
    SetupDistinct(m0, n0, target0, initial);
    var p := new Puzzle(setup.value);
    return Ok(p);
  }

  /** The constructor's board repeats no value when the board it was given repeats none. */
  lemma SetupDistinct(m0: nat, n0: nat, target: seq<int>, initial: Option<seq<int>>)
    requires Configure(m0, n0, target, initial).Ok?
    ensures Distinct(Initial(m0, n0, initial)) ==> Distinct(Configure(m0, n0, target, initial).value.grid)
  {
    ConfigureUnfold(m0, n0, target, initial);
    if Distinct(Initial(m0, n0, initial)) {
      OrientDistinct(m0, n0, Initial(m0, n0, initial));
    }
  }

  /** `ConfigureSetup` for a set-up given by its fields, away from the definition of `Configure`. */
  lemma SetupFacts(m0: nat, n0: nat, init: seq<int>, target: seq<int>, s: Setup)
    requires m0 > 1 && n0 > 1 && |init| == m0 * n0 && |target| == m0 * n0 && target[|target| - 1] == 0
    requires s.grid == Orient(m0, n0, init) && s.target == Orient(m0, n0, target)
    requires s.flipped == (m0 > n0) && s.m == (if m0 > n0 then n0 else m0) && s.n == (if m0 > n0 then m0 else n0)
    requires IndexOf(s.grid, 0) == Some(s.b)
    ensures WellFormed(s) && s.m * s.n == m0 * n0 && IndexOf(s.grid, 0) == Some(s.b)
    ensures (s.flipped <==> m0 > n0) && (s.flipped ==> s.m == n0 && s.n == m0) && (!s.flipped ==> s.m == m0 && s.n == n0)
    ensures s.flipped ==> Transpose(s.grid, s.m) == init && Transpose(s.target, s.m) == target
    ensures !s.flipped ==> s.grid == init && s.target == target
  {
    OrientShape(m0, n0, init);
    OrientShape(m0, n0, target);
    OrientedSetup(m0, n0, s);
  }

  /** An accepted set-up is the oriented boards, with the raw arguments well-formed. */
  lemma ConfigureUnfold(m0: nat, n0: nat, target: seq<int>, initial: Option<seq<int>>)
    requires Configure(m0, n0, target, initial).Ok?
    ensures var init := Initial(m0, n0, initial);
      m0 > 1 && n0 > 1 && |init| == m0 * n0 && |target| == m0 * n0 && target[|target| - 1] == 0
    ensures var s := Configure(m0, n0, target, initial).value;
      s.grid == Orient(m0, n0, Initial(m0, n0, initial)) && s.target == Orient(m0, n0, target) &&
      s.flipped == (m0 > n0) && s.m == (if m0 > n0 then n0 else m0) && s.n == (if m0 > n0 then m0 else n0) &&
      IndexOf(s.grid, 0) == Some(s.b)
  {
  }

  /** Oriented boards of the right size, the target ending in the blank, make a well-formed set-up. */
  lemma OrientedSetup(m0: nat, n0: nat, s: Setup)
    requires m0 > 1 && n0 > 1 && |s.grid| == m0 * n0 && |s.target| == m0 * n0 && s.target[m0 * n0 - 1] == 0
    requires s.m == (if m0 > n0 then n0 else m0) && s.n == (if m0 > n0 then m0 else n0)
    requires IndexOf(s.grid, 0) == Some(s.b)
    ensures WellFormed(s) && s.m * s.n == m0 * n0
  {
    SideProduct(m0, n0, s.m, s.n);
  }

  /** The working sides are the given ones, perhaps exchanged: the number of cells is the same. */
  lemma SideProduct(m0: nat, n0: nat, m: nat, n: nat)
    requires (m == m0 && n == n0) || (m == n0 && n == m0)
    ensures m * n == m0 * n0
  {
    if m != m0 {
      assert n0 * m0 == m0 * n0;
    }
  }

  /** The plan `solve` follows for a board of width `m` and height `n`. */
  datatype Plan = TwoByTwo | TwoWide | General

  /**
   * The dispatch of `solve`: the 2 by 2 base case, the two-wide solver for every board two
   * cells wide, and the general solver, whose top-row end game needs a width of at least 3.
   */
  function Strategy(m: nat, n: nat): (r: Plan)
  {
    if m == 2 && n == 2 then TwoByTwo else if m == 2 then TwoWide else General
  }

  /** The dispatch as written: the two-wide solver only for the 2 by 3 board. */
  function StrategyAsWritten(m: nat, n: nat): (r: Plan)
  {
    if m == 2 && n == 2 then TwoByTwo else if m == 2 && n == 3 then TwoWide else General
  }

  /** Each plan is used only for the boards it handles, and every board in working orientation gets one. */
  lemma StrategyFits(m: nat, n: nat)
    requires 1 < m <= n
    ensures Strategy(m, n) == TwoByTwo <==> m == 2 && n == 2
    ensures Strategy(m, n) == TwoWide <==> m == 2 && n >= 3
    ensures Strategy(m, n) == General <==> m >= 3
    ensures StrategyAsWritten(m, n) != Strategy(m, n) <==> m == 2 && n >= 4
  {
  }

  /** As written, a 2 by 4 board is handed to the general solver, whose end game needs width 3. */
  lemma StrategyAsWrittenNarrow()
    ensures StrategyAsWritten(2, 4) == General && Strategy(2, 4) == TwoWide
  {
  }

  /** Every cell of `ps` is a cell of the board. */
  predicate Cells(m: nat, n: nat, ps: seq<int>)
  {
    forall i :: 0 <= i < |ps| ==> 0 <= ps[i] < m * n
  }

  /** No cell of `ps` is one of the frozen cells `fs`. */
  predicate Avoids(ps: seq<int>, fs: seq<int>)
  {
    forall i :: 0 <= i < |ps| ==> ps[i] !in fs
  }

  /** A single slide from a cell to its neighbour on the board is a route. */
  lemma NextTo(m: nat, n: nat, s: int, q: int)
    requires m > 0 && OnBoard(m, n, s) && OnBoard(m, n, q) && Neighbours(m, s, q)
    ensures Chain(m, n, q, [s])
  {
    AdjacentCells(m, n, s, q);
    assert Before(q, [s], 0) == q;
  }

  /** Every frozen cell that held a tile other than the blank and `t` in `g0` still holds it in `g`. */
  predicate Frozen(g0: seq<int>, g: seq<int>, fs: seq<int>, t: int)
  {
    forall q :: 0 <= q < |g0| && q < |g| && q in fs && g0[q] != 0 && g0[q] != t ==> g[q] == g0[q]
  }

  /** Keeping the frozen tiles twice over keeps them. */
  lemma FrozenTrans(g0: seq<int>, g1: seq<int>, g2: seq<int>, fs: seq<int>, t: int)
    requires |g0| == |g1| == |g2|
    ensures Frozen(g0, g1, fs, t) && Frozen(g1, g2, fs, t) ==> Frozen(g0, g2, fs, t)
  {
  }

  /** A route that leaves the cells of `fs` and `s` alone, the blank's start aside, keeps the frozen tiles and `s`'s tile. */
  lemma RouteFrozen(g0: seq<int>, g1: seq<int>, b0: int, fs: seq<int>, s: int, t: int)
    requires |g0| == |g1| && 0 <= b0 < |g0| && g0[b0] == 0 && 0 <= s < |g0| && g0[s] == t && t != 0
    requires forall q :: 0 <= q < |g0| && q in fs + [s] && q != b0 ==> g1[q] == g0[q]
    ensures Frozen(g0, g1, fs, t) && g1[s] == t
  {
    assert s in fs + [s];
    forall q | 0 <= q < |g0| && q < |g1| && q in fs && g0[q] != 0 && g0[q] != t ensures g1[q] == g0[q] {
      assert q in fs + [s];
    }
  }

  /** Sliding tile `t` into the blank keeps the other frozen tiles. */
  lemma SlideFrozen(g: seq<int>, b: int, s: int, fs: seq<int>, t: int)
    requires 0 <= b < |g| && 0 <= s < |g| && g[b] == 0 && g[s] == t
    ensures Frozen(g, Swap(g, b, s), fs, t)
  {
  }

  /**
   * The log of `move` after sliding tile `x`: the slide is appended, and the scan back over the
   * log stops at the last earlier slide, deleting both when that one moved the same tile.
   */
  method Append(log: seq<Entry>, x: int) returns (ms: seq<Entry>)
    ensures ms == Record(log, x)
  {
    ms := log + [Slide(x)];
    var i := |ms| - 2;
    while i >= 0
      invariant -1 <= i <= |log| - 1 && ms == log + [Slide(x)]
      invariant forall j :: i < j < |log| ==> log[j].Placing?
    {
      if ms[i].Slide? {
        LastSlideAt(log, i);
        if ms[i] == ms[|ms| - 1] {
          ms := ms[..|ms| - 1];
          ms := ms[..i] + ms[i + 1..];
        }
        return;
      }
      i := i - 1;
    }
    LastSlideAt(log, i);
  }

  /**
   * The board of `reduce()` after the smaller puzzle: the kept top row over the smaller board
   * `s`, `w` wide, transposed back when it was turned, and its blank found again.
   */
  method Restack(top: seq<int>, w: nat, h: nat, turned: bool, s: seq<int>) returns (g: seq<int>, blank: nat)
    requires w > 0 && |s| == w * h && 0 in s
    ensures g == top + Unturn(turned, s, w) && |g| == |top| + w * h
    ensures g[..|top|] == top && g[|top|..] == Unturn(turned, s, w)
    ensures blank < |g| && g[blank] == 0 && IndexOf(g, 0) == Some(blank)
  {
    Unturned(s, w, h, turned);
    g := top + Unturn(turned, s, w);
    assert g[|top|..] == Unturn(turned, s, w);
    var found := IndexOf(g, 0);
    blank := found.value;
  }

  /**
   * The board `scramble()` settles on after the shuffle `s`: its blank, and the shuffle with the
   * two larger of its three leading values exchanged when the corrected parity test asks for it,
   * which puts a board of distinct tiles in the class of the target.
   */
  method Reshuffle(m: nat, n: nat, target: seq<int>, s: seq<int>) returns (out: Outcome, g: seq<int>, blank: nat)
    requires m > 0 && |s| == m * n >= 4 && |target| == m * n
    ensures out.Fail? <==> 0 !in s
    ensures out.Fail? ==> out.why == NotFound && g == s
    ensures out.Done? ==> IndexOf(s, 0) == Some(blank) && g == (if NeedsFix(m, s, blank, target) then ParityFix(s) else s)
    ensures |g| == |s| && (out.Done? ==> blank < |g|)
    ensures out.Done? && Tiles(s) ==>
      g[blank] == 0 && Tiles(g) && multiset(g) == multiset(s) && Class(m, g, blank) == Class(m, target, m * n - 1)
  {
    var z := IndexOf(s, 0);
    if z.None? {
      return Fail(NotFound), s, 0;
    }
    blank := z.value;
    g := if NeedsFix(m, s, blank, target) then ParityFix(s) else s;
    ScrambleClass(m, s, blank, target, m * n - 1, g);
    out := Done;
  }

  /**
   * The loop of `move` over the board `g0`, its blank at `b0`, and the log `log0`: slide the
   * tiles at `ps` one after the other until a cell is not next to the blank. The first `k`
   * slides are made and logged, and the run stops early exactly at a cell off the blank.
   */
  method Run(m: nat, n: nat, g0: seq<int>, b0: nat, log0: seq<Entry>, ps: seq<int>)
    returns (out: Outcome, k: nat, g: seq<int>, bb: nat, ms: seq<Entry>)
    requires m > 0 && |g0| == m * n && b0 < m * n
    ensures k <= |ps| && Chain(m, n, b0, ps[..k]) && Cells(m, n, ps[..k])
    ensures g == Slid(g0, b0, ps[..k]) && bb == End(b0, ps[..k]) && |g| == m * n && bb < m * n
    ensures ms == Logged(log0, g0, b0, ps[..k])
    ensures out.Done? <==> k == |ps|
    ensures out.Fail? ==> out.why == InvalidMove && !Link(m, n, bb, ps[k])
  {
    g, bb, ms := g0, b0, log0;
    k := 0;
    out := Done;
    while k < |ps|
      invariant k <= |ps| && |g| == m * n && bb < m * n
      invariant Chain(m, n, b0, ps[..k]) && Cells(m, n, ps[..k])
      invariant g == Slid(g0, b0, ps[..k]) && bb == End(b0, ps[..k])
      invariant ms == Logged(log0, g0, b0, ps[..k])
    {
      var p := ps[k];
      if !Link(m, n, bb, p) {
        return Fail(InvalidMove), k, g, bb, ms;
      }
      MoveStep(m, n, g0, b0, log0, ps, k);
      ms := Append(ms, g[p]);
      g := g[bb := g[p]][p := g[bb]];
      bb := p;
      k := k + 1;
    }
  }

  /** A legal run from a board without repeats that its log plays back to is played back by the extended log. */
  lemma RunReplays(m: nat, n: nat, o: seq<int>, log0: seq<Entry>, g0: seq<int>, b0: nat, qs: seq<int>, g: seq<int>, ms: seq<Entry>)
    requires m > 0 && |g0| == m * n && b0 < |g0| && Chain(m, n, b0, qs) && Cells(m, n, qs)
    requires g == Slid(g0, b0, qs) && ms == Logged(log0, g0, b0, qs)
    ensures g0[b0] == 0 && Distinct(g0) && Replay(m, n, o, log0) == Some(g0) ==> Replay(m, n, o, ms) == Some(g) && Distinct(g)
  {
    if g0[b0] == 0 && Distinct(g0) && Replay(m, n, o, log0) == Some(g0) {
      LoggedReplay(m, n, o, log0, g0, b0, qs);
      SlidFacts(g0, b0, qs);
    }
  }

  /** A marker added to a log that plays back to `g` plays back to `g` too. */
  lemma MarkerReplays(m: nat, n: nat, o: seq<int>, log: seq<Entry>, g: seq<int>, t: int)
    requires m > 0
    ensures Replay(m, n, o, log) == Some(g) ==> Replay(m, n, o, log + [Placing(t)]) == Some(g)
  {
    ReplayLast(m, n, o, log, Placing(t));
  }

  /** One more slide of a legal run: the run stays legal, and the board and the log take one more step. */
  lemma MoveStep(m: nat, n: nat, g0: seq<int>, b0: int, log0: seq<Entry>, ps: seq<int>, j: nat)
    requires m > 0 && |g0| == m * n && 0 <= b0 < m * n && j < |ps|
    requires Chain(m, n, b0, ps[..j]) && Cells(m, n, ps[..j]) && Link(m, n, End(b0, ps[..j]), ps[j])
    ensures Chain(m, n, b0, ps[..j + 1]) && Cells(m, n, ps[..j + 1]) && End(b0, ps[..j + 1]) == ps[j]
    ensures 0 <= End(b0, ps[..j]) < m * n
    ensures Slid(g0, b0, ps[..j + 1]) == Swap(Slid(g0, b0, ps[..j]), End(b0, ps[..j]), ps[j])
    ensures Logged(log0, g0, b0, ps[..j + 1]) == Record(Logged(log0, g0, b0, ps[..j]), Slid(g0, b0, ps[..j])[ps[j]])
  {
    var a := ps[..j];
    assert ps[..j + 1] == a + [ps[j]];
    SlidSnoc(g0, b0, a, ps[j]);
    ChainSnoc(m, n, b0, a, ps[j]);
    assert (a + [ps[j]])[..j] == a;
  }

  /** Each slide of a chain is next to where the blank is after the slides before it. */
  lemma ChainLink(m: nat, n: nat, b: int, ps: seq<int>, k: nat)
    requires m > 0 && Chain(m, n, b, ps) && k < |ps|
    ensures Link(m, n, End(b, ps[..k]), ps[k])
  {
    ChainAt(m, n, b, ps, k);
    assert Before(b, ps, k) == End(b, ps[..k]);
  }

  /**
   * Over the board's distance labels, a walk back from the destination `blank` picks, labelled
   * below the sentinel, is a chain of slides from the blank that keeps off the frozen cells,
   * ends at a destination and is no longer than any other such chain.
   */
  lemma NearestRoute(m: nat, n: nat, nb: seq<seq<int>>, h: seq<Option<nat>>, b: nat, fs: seq<int>, ps: seq<int>,
                     d: nat, p: int, route: seq<int>)
    requires m > 0 && b < m * n && b !in ps && Cells(m, n, ps) && |h| == m * n
    requires nb == Neighbourhood(m, n) && Routed(nb, h, b, fs, m + n)
    requires Nearest(h, ps) == Some((d, p)) && d < m + n
    requires Routed(nb, h, b, fs, m + n) && h[p] == Some(d) && 1 <= d < m + n ==> Descent(nb, h, b, route, p, d)
    ensures route != [] && route[|route| - 1] == p && p in ps
    ensures Chain(m, n, b, route) && Cells(m, n, route) && Avoids(route, fs)
    ensures forall r :: Chain(m, n, b, r) && r != [] && Avoids(r, fs) && r[|r| - 1] in ps ==> |route| <= |r|
  {
    assert p in ps && h[p] == Some(d);
    LabelPositive(nb, h, b, fs, m + n, p);
    DescentRoute(m, n, nb, h, b, fs, route, p, d);
    NearestShortest(m, n, h, b, fs, ps, d, p);
  }

  /** A descent from a cell labelled below the sentinel is a chain from the blank that keeps off the frozen cells. */
  lemma DescentRoute(m: nat, n: nat, nb: seq<seq<int>>, h: seq<Option<nat>>, b: nat, fs: seq<int>, route: seq<int>,
                     p: int, d: nat)
    requires m > 0 && |h| == m * n && nb == Neighbourhood(m, n) && Routed(nb, h, b, fs, m + n)
    requires Descent(nb, h, b, route, p, d) && d < m + n
    ensures |route| == d && route != [] && route[|route| - 1] == p
    ensures Chain(m, n, b, route) && Cells(m, n, route) && Avoids(route, fs)
  {
    RoutedLabelling(nb, h, b, fs, m + n);
    WalkChain(m, n, b, route);
    RouteAvoids(h, b, fs, m + n, route);
  }

  /** Cells labelled below the sentinel, other than the blank's, are not frozen. */
  lemma RouteAvoids(h: seq<Option<nat>>, b: int, fs: seq<int>, top: nat, route: seq<int>)
    requires Seeded(h, b, fs, top) && |route| < top
    requires forall i :: 0 <= i < |route| ==> 0 <= route[i] < |h| && h[route[i]] == Some(i + 1)
    ensures Avoids(route, fs)
  {
    forall i | 0 <= i < |route| ensures route[i] !in fs {
      var q := route[i];
      assert h[q] == Some(i + 1) && h[q] != Some(0) && h[q] != Some(top);
    }
  }

  /** No chain that keeps off the frozen cells reaches a destination in fewer slides than the nearest label. */
  lemma NearestShortest(m: nat, n: nat, h: seq<Option<nat>>, b: nat, fs: seq<int>, ps: seq<int>, d: nat, p: int)
    requires m > 0 && b < m * n && Cells(m, n, ps) && |h| == m * n
    requires Routed(Neighbourhood(m, n), h, b, fs, m + n)
    requires Nearest(h, ps) == Some((d, p))
    ensures forall r :: Chain(m, n, b, r) && r != [] && Avoids(r, fs) && r[|r| - 1] in ps ==> d <= |r|
  {
    forall r | Chain(m, n, b, r) && r != [] && Avoids(r, fs) && r[|r| - 1] in ps
      ensures d <= |r|
    {
      RouteLabel(m, n, h, b, fs, r);
      NearestAt(h, ps, d, p, r[|r| - 1]);
    }
  }

  /** A chain from the blank that keeps off the frozen cells ends at a cell labelled at most its length. */
  lemma RouteLabel(m: nat, n: nat, h: seq<Option<nat>>, b: nat, fs: seq<int>, r: seq<int>)
    requires m > 0 && b < m * n && |h| == m * n
    requires Routed(Neighbourhood(m, n), h, b, fs, m + n)
    requires Chain(m, n, b, r) && r != [] && Avoids(r, fs)
    ensures 0 <= r[|r| - 1] < |h| && h[r[|r| - 1]].Some? && h[r[|r| - 1]].value <= |r|
  {
    RoutedSettled(Neighbourhood(m, n), h, b, fs, m + n);
    NeighbourhoodSymmetric(m, n);
    WalkChain(m, n, b, r);
    RouteBound(Neighbourhood(m, n), h, b, fs, m + n, r);
  }

  /** A destination that a short enough chain keeping off the frozen cells reaches is labelled below the sentinel. */
  lemma ReachClean(m: nat, n: nat, h: seq<Option<nat>>, b: nat, fs: seq<int>, ps: seq<int>)
    requires m > 0 && b < m * n && Cells(m, n, ps) && |h| == m * n
    requires Routed(Neighbourhood(m, n), h, b, fs, m + n)
    ensures forall r :: Chain(m, n, b, r) && r != [] && Avoids(r, fs) && |r| < m + n && ps == [r[|r| - 1]] ==>
      Nearest(h, ps).Some? && Nearest(h, ps).value.0 < m + n
  {
    forall r | Chain(m, n, b, r) && r != [] && Avoids(r, fs) && |r| < m + n && ps == [r[|r| - 1]]
      ensures Nearest(h, ps).Some? && Nearest(h, ps).value.0 < m + n
    {
      RouteLabel(m, n, h, b, fs, r);
    }
  }

  /**
   * The route `blank(ps, fs)` takes. Unless the blank is on a destination already, the cells
   * are labelled with their distance from the blank, frozen cells carrying the sentinel
   * `m + n`; the destination with the smallest label (then the smallest index) is chosen and
   * the route is the walk back from it. There is none when some destination is unlabelled.
   * The route is `clean` when the label is below the sentinel: it then keeps off the frozen
   * cells and no chain of slides that does so reaches a destination in fewer slides.
   */
  method Route(m: nat, n: nat, b: nat, ps: seq<int>, fs: seq<int>) returns (route: Option<seq<int>>, ghost clean: bool)
    requires m > 0 && b < m * n && Cells(m, n, ps) && Cells(m, n, fs)
    ensures b in ps ==> route == Some([]) && clean
    ensures route.None? ==> !clean
    ensures clean ==> route.Some? && Chain(m, n, b, route.value) && End(b, route.value) in ps && Avoids(route.value, fs)
    ensures clean ==> forall r :: Chain(m, n, b, r) && r != [] && Avoids(r, fs) && r[|r| - 1] in ps ==> |route.value| <= |r|
    ensures forall r :: Chain(m, n, b, r) && r != [] && Avoids(r, fs) && |r| < m + n && ps == [r[|r| - 1]] ==> clean
  {
    if b in ps {
      return Some([]), true;
    }
    var nb := Neighbourhood(m, n);
    NeighbourhoodSymmetric(m, n);
    var h := Distances(nb, m + n, b, fs);
    var near := Nearest(h, ps);
    if near.None? {
      ReachClean(m, n, h, b, fs, ps);
      return None, false;
    }
    var (d, p) := near.value;
    var ms := Backtrack(nb, h, p, d, b, fs, m + n);
    clean := d < m + n;
    if clean {
      NearestRoute(m, n, nb, h, b, fs, ps, d, p, ms);
    }
    route := Some(ms);
    ReachClean(m, n, h, b, fs, ps);
  }

  /** The cells `0, 1, ..., k - 1`: the part of the top row placed so far. */
  function Upto(k: nat): (r: seq<int>)
    ensures |r| == k && forall j :: 0 <= j < k ==> r[j] == j
  {
    seq(k, j => j)
  }

  /** A cell is among the first `k` exactly when it is below `k`. */
  lemma UptoHas(k: nat, q: int)
    ensures q in Upto(k) <==> 0 <= q < k
  {
    if 0 <= q < k {
      assert Upto(k)[q] == q;
    }
  }

  /** In a target that ends in the blank and repeats no value, no other cell holds the blank. */
  lemma TargetTiles(target: seq<int>, j: int)
    requires |target| > 0 && target[|target| - 1] == 0 && Distinct(target) && 0 <= j < |target| - 1
    ensures target[j] != 0
  {
  }

  /** Cell `c` of the top row is in row 0, column `c`; the cell below it in row 1. */
  lemma TopCell(m: nat, c: int)
    requires m > 0 && 0 <= c < m
    ensures Row(m, c) == 0 && Col(m, c) == c && Row(m, c + m) == 1 && Col(m, c + m) == c
  {
    DivMod(0, c, m);
    DivMod(1, c, m);
  }

  /** A cell of the board past the top row is in row 1 or below. */
  lemma BelowTop(m: nat, q: int)
    requires m > 0 && q >= m
    ensures Row(m, q) >= 1
  {
    RowCol(m, q);
    if Row(m, q) <= 0 {
      MulMono(Row(m, q), 0, m);
    }
  }

  /**
   * Where `place` leaves its tile, in `p`'s column and in the higher of the tile's starting row
   * and `p`'s row, is `p` itself when the tile started no higher than `p`.
   */
  lemma Landed(m: nat, at: int, from: int, p: int)
    requires m > 0 && Row(m, from) >= Row(m, p) && Col(m, at) == Col(m, p)
    requires Row(m, at) == (if Row(m, from) < Row(m, p) then Row(m, from) else Row(m, p))
    ensures at == p
  {
    SameCell(m, at, p);
  }

  /**
   * One round of `solveit`'s loop: placing target tile `i` in cell `i` while the cells before
   * it are frozen, when it lands cleanly, extends the correct part of the top row by one cell.
   */
  lemma TopRowStep(m: nat, g0: seq<int>, g: seq<int>, target: seq<int>, i: nat, from: int, at: int)
    requires 1 < m && |g0| == |target| && |g| == |target| && m < |target| && target[|target| - 1] == 0 && Distinct(target)
    requires i < m && forall j :: 0 <= j < i ==> g0[j] == target[j]
    requires 0 <= from < |target| && 0 <= at < |target| && Col(m, at) == Col(m, i)
    requires Row(m, at) == (if Row(m, from) < Row(m, i) then Row(m, from) else Row(m, i))
    requires g[at] == target[i] && Frozen(g0, g, Upto(i), target[i])
    ensures forall j :: 0 <= j <= i ==> g[j] == target[j]
  {
    TopCell(m, i);
    RowCol(m, from);
    Landed(m, at, from, i);
    forall j | 0 <= j < i ensures g[j] == target[j] {
      UptoHas(i, j);
      TargetTiles(target, j);
    }
  }

  /**
   * `solveit`'s placement of the row's last tile in the cell `q` below the row's last cell:
   * the tile starts outside the part of the row already right, so past the top row, and a clean
   * placement brings it to `q` and keeps that part of the row.
   */
  lemma LiftedBelow(m: nat, g0: seq<int>, g: seq<int>, target: seq<int>, from: int, at: int, q: int)
    requires 1 < m && |g0| == |target| && |g| == |target| && 2 * m <= |target|
    requires target[|target| - 1] == 0 && Distinct(target)
    requires forall j :: 0 <= j < m - 1 ==> g0[j] == target[j]
    requires q == m - 1 + m && 0 <= from < |g0| && from != m - 1 && g0[from] == target[m - 1]
    requires 0 <= at < |target| && Col(m, at) == Col(m, q)
    requires Row(m, at) == (if Row(m, from) < Row(m, q) then Row(m, from) else Row(m, q))
    requires g[at] == target[m - 1] && Frozen(g0, g, Upto(m - 1), target[m - 1])
    ensures g[2 * m - 1] == target[m - 1] && forall j :: 0 <= j < m - 1 ==> g[j] == target[j]
  {
    TopCell(m, m - 1);
    BelowTop(m, from);
    Landed(m, at, from, q);
    forall j | 0 <= j < m - 1 ensures g[j] == target[j] {
      UptoHas(m - 1, j);
      TargetTiles(target, j);
    }
  }

  /**
   * Bringing the blank below the third cell from the right, keeping off the frozen cells `fs`,
   * keeps the part of the top row already right and the tile below the row's last cell, since
   * the blank started elsewhere.
   */
  lemma EndRowKept(m: nat, n: nat, g0: seq<int>, g1: seq<int>, target: seq<int>, b0: int, q: int, fs: seq<int>)
    requires 1 < m && |g0| == m * n && |g0| == |target| && |g1| == |target| && q < |target| && q == 2 * m - 1
    requires target[|target| - 1] == 0 && Distinct(target) && fs == Upto(m - 1) + [q]
    requires 0 <= b0 < |g0| && g0[b0] == 0 && g0[2 * m - 1] == target[m - 1]
    requires forall j :: 0 <= j < m - 1 ==> g0[j] == target[j]
    requires forall c :: 0 <= c < m * n && c in fs && c != b0 ==> g1[c] == g0[c]
    ensures g1[2 * m - 1] == target[m - 1] && forall j :: 0 <= j < m - 1 ==> g1[j] == target[j]
  {
    TargetTiles(target, m - 1);
    assert q in fs;
    forall j | 0 <= j < m - 1 ensures g1[j] == target[j] {
      UptoHas(m - 1, j);
      TargetTiles(target, j);
      assert j in fs;
    }
  }

  /** Sliding the tile below the row's last cell up into it completes a top row right so far. */
  lemma SlideUpRow(m: nat, g0: seq<int>, g: seq<int>, target: seq<int>, q: int)
    requires 1 < m && q == m - 1 + m && q < |g0| && |target| == |g0|
    requires g0[q] == target[m - 1] && forall j :: 0 <= j < m - 1 ==> g0[j] == target[j]
    requires g == Swap(g0, m - 1, q)
    ensures forall j :: 0 <= j < m ==> g[j] == target[j]
  {
  }

  /** The top row of `g` is right but for its last cell, whose tile waits in the cell below it. */
  predicate RowAwaitsEnd(m: nat, g: seq<int>, target: seq<int>)
  {
    m >= 3 && 2 * m <= |g| && |target| == |g| && g[2 * m - 1] == target[m - 1]
    && forall j :: 0 <= j < m - 1 ==> g[j] == target[j]
  }

  /** The end game puts the tile below the row's last cell into it and keeps the rest of the row. */
  lemma EndGameRow(m: nat, g1: seq<int>, g: seq<int>, target: seq<int>)
    requires RowAwaitsEnd(m, g1, target)
    requires g == Slid(g1, 2 * m - 3, EndGame(m))
    ensures forall j :: 0 <= j < m ==> g[j] == target[j]
  {
    EndGameEffect(m, g1);
    var r, u, t := m - 1, 2 * m - 2, 2 * m - 1;
    assert g == g1[r := g1[t]][u := g1[r]][t := g1[u]];
    forall j | 0 <= j < m
      ensures g[j] == target[j]
    {
      if j < r {
        assert g[j] == g1[j];
      }
    }
  }

  /** Dropping the top row of an `m` by `n` board leaves `m * (n - 1)` cells, fewer than before. */
  lemma Fewer(m: nat, n: nat)
    requires m > 0 && n > 0
    ensures m * (n - 1) < m * n && m + m * (n - 1) == m * n
  {
    assert m * (n - 1) == m * n - m;
  }

  /** A part of a board without repeats has none. */
  lemma DistinctDrop(s: seq<int>, k: nat)
    requires Distinct(s) && k <= |s|
    ensures Distinct(s[k..])
  {
    forall a, c | 0 <= a < c < |s| - k ensures s[k..][a] != s[k..][c] {
      assert s[k..][a] == s[k + a] && s[k..][c] == s[k + c];
    }
  }

  /** Orienting a board keeps it free of repeats. */
  lemma OrientDistinct(m0: nat, n0: nat, s: seq<int>)
    requires m0 > 0 && n0 > 0 && |s| == m0 * n0 && Distinct(s)
    ensures Distinct(Orient(m0, n0, s))
  {
    if m0 > n0 {
      TransposeDistinct(s, m0, n0);
    }
  }

  /**
   * The puzzle `reduce` builds for the board below the top row: as many cells as that part, a
   * target without repeats when the whole target has none, and that part of the target again
   * once its target is transposed back (when it was turned).
   */
  lemma Reduced(m: nat, n: nat, target: seq<int>, rest: seq<int>, s: Setup)
    requires m > 0 && n > 1 && |target| == m * n
    requires Configure(m, n - 1, target[m..], Some(rest)) == Ok(s)
    ensures s.m * s.n < m * n && m + s.m * s.n == m * n
    ensures Distinct(target) ==> Distinct(s.target)
    ensures (s.flipped ==> Transpose(s.target, s.m) == target[m..]) && (!s.flipped ==> s.target == target[m..])
    ensures Lowered(m, n, s.flipped, s.m, s.n) && (s.flipped <==> m > n - 1) && Unturn(s.flipped, s.grid, s.m) == rest
    ensures WellFormed(s) && (Distinct(rest) ==> Distinct(s.grid))
  {
    Fewer(m, n);
    ConfigureSetup(m, n - 1, target[m..], Some(rest));
    ConfigureUnfold(m, n - 1, target[m..], Some(rest));
    if Distinct(target) {
      DistinctDrop(target, m);
      OrientDistinct(m, n - 1, target[m..]);
    }
    if Distinct(rest) {
      OrientDistinct(m, n - 1, rest);
    }
  }

  /** Transposing a solved part back, when it was turned, keeps its size and its blank. */
  lemma Unturned(g: seq<int>, w: nat, h: nat, turned: bool)
    requires w > 0 && h > 0 && |g| == w * h
    ensures |Unturn(turned, g, w)| == w * h && (0 in Unturn(turned, g, w) <==> 0 in g)
  {
    TransposeLength(g, w, h);
    TransposeHas(g, w, h);
  }

  /**
   * A board `g` that kept the top row of `g0` and has the rest right is the target, when that
   * top row was right.
   */
  lemma Rejoin(g0: seq<int>, g: seq<int>, target: seq<int>, m: nat)
    requires m <= |g0| && |g| == |g0| && |g| == |target|
    requires forall j :: 0 <= j < m ==> g0[j] == target[j]
    requires g[..m] == g0[..m] && g[m..] == target[m..]
    ensures g == target
  {
    forall j | 0 <= j < |g| ensures g[j] == target[j] {
      if j < m {
        assert g[j] == g[..m][j] == g0[..m][j] == g0[j];
      } else {
        assert g[j] == g[m..][j - m] && target[j] == target[m..][j - m];
      }
    }
  }

  class Puzzle {
    var m: nat
    var n: nat
    var flipped: bool
    var grid: seq<int>
    var target: seq<int>
    var b: nat
    var moves: seq<Entry>
    /** The board the move log plays back from. */
    ghost var origin: seq<int>

    /** The shape every puzzle keeps, whatever an operation ends in. */
    ghost predicate Valid()
      reads this
    {
      1 < m <= n && |grid| == m * n && 2 * m <= |grid| && |target| == |grid| && target[|target| - 1] == 0 && b < |grid|
    }

    /** The blank is where the puzzle believes it is. */
    ghost predicate Ready()
      reads this
    {
      Valid() && grid[b] == 0
    }

    /** The move log plays back from the starting board to the current one. */
    ghost predicate Tracks()
      reads this
      requires Valid()
    {
      Replay(m, n, origin, moves) == Some(grid)
    }

    /** The board repeats no value and the move log plays back from `origin` to it. */
    ghost predicate Replays()
      reads this
    {
      Valid() && Distinct(grid) && Tracks()
    }

    /** The fields of a set-up the constructor accepted, with an empty log. */
    constructor (s: Setup)
      requires WellFormed(s)
      ensures m == s.m && n == s.n && flipped == s.flipped && grid == s.grid && target == s.target && b == s.b
      ensures moves == [] && origin == grid
      ensures Ready() && Tracks()
    {
      SetupShape(s);
      m, n, flipped := s.m, s.n, s.flipped;
      grid, target, b := s.grid, s.target, s.b;
      moves := [];
      origin := s.grid;
    }

    /** `copy()`: a new puzzle on the current board and target, unflipped, with an empty log. */
    method Copy() returns (c: Puzzle)
      requires Ready()
      ensures fresh(c) && c.Ready() && c.Tracks()
      ensures c.m == m && c.n == n && !c.flipped && c.grid == grid && c.target == target
      ensures c.b == IndexOf(grid, 0).value && c.moves == []
      ensures Distinct(grid) ==> c.Replays()
    {
      ConfigureRefuses(m, n, target, Some(grid));
      ConfigureSetup(m, n, target, Some(grid));
      var r := Create(m, n, target, Some(grid));
      c := r.value;
    }

    /**
     * `scramble()`: the board becomes `shuffled`, a rearrangement of its cells that stands for
     * the random shuffle, and the blank's cell is where the shuffle put the 0. When the shuffled
     * board is in the other class from the target, the two larger of its three leading values
     * are exchanged, so that the target can be reached.
     */
    method Scramble(shuffled: seq<int>) returns (out: Outcome)
      requires Valid() && multiset(shuffled) == multiset(grid)
      modifies this
      ensures Valid() && m == old(m) && n == old(n) && flipped == old(flipped)
      ensures target == old(target) && moves == old(moves)
      ensures origin == if old(moves) == [] then grid else old(origin)
      ensures out.Done? && Tiles(shuffled) && old(moves) == [] ==> Replays()
      ensures out.Fail? <==> 0 !in shuffled
      ensures out.Fail? ==> out.why == NotFound && grid == shuffled && b == old(b)
      ensures out.Done? ==> IndexOf(shuffled, 0) == Some(b)
      ensures out.Done? ==> |shuffled| >= 3 && grid == (if NeedsFix(m, shuffled, b, target) then ParityFix(shuffled) else shuffled)
      ensures out.Done? && Tiles(shuffled) ==>
        Ready() && Tiles(grid) && multiset(grid) == multiset(shuffled) && Class(m, grid, b) == Class(m, target, m * n - 1)
    {
      assert |shuffled| == m * n >= 4 by {
        assert |multiset(shuffled)| == |shuffled| && |multiset(grid)| == |grid|;
      }
      var g, blank;
      out, g, blank := Reshuffle(m, n, target, shuffled);
      grid := g;
      if out.Done? {
        b := blank;
      }
      if moves == [] {
        origin := g;
        assert Replay(m, n, origin, moves) == Some(grid);
      }
    }

    /**
     * `move(ps)`: slide the tiles at `ps` into the blank, one after the other, logging each
     * slide and cancelling it against the last logged slide when it undoes it. A cell that is
     * not next to the blank stops the run with the slides before it made and logged, and the
     * blank's recorded cell left where it was before the call.
     */
    method Move(ps: seq<int>) returns (out: Outcome, ghost k: nat)
      requires Valid()
      modifies this
      ensures Valid() && m == old(m) && n == old(n) && flipped == old(flipped)
      ensures target == old(target) && origin == old(origin)
      ensures old(grid[b] == 0 && Replays()) ==> Replays()
      ensures k <= |ps| && Chain(m, n, old(b), ps[..k]) && Cells(m, n, ps[..k])
      ensures grid == Slid(old(grid), old(b), ps[..k])
      ensures moves == Logged(old(moves), old(grid), old(b), ps[..k])
      ensures out.Done? <==> k == |ps|
      ensures out.Done? ==> b == End(old(b), ps)
      ensures out.Fail? ==> out.why == InvalidMove && b == old(b) && !Link(m, n, End(old(b), ps[..k]), ps[k])
      ensures out.Done? && old(grid[b]) == 0 ==> grid[b] == 0
      ensures Chain(m, n, old(b), ps) ==> out.Done?
    {
      ghost var g0, b0, log0 := grid, b, moves;
      var g, bb, ms;
      out, k, g, bb, ms := Run(m, n, grid, b, moves, ps);
      assert |g| == |g0| && bb < |g0|;
      RunReplays(m, n, origin, log0, g0, b0, ps[..k], g, ms);
      // the blank's recorded cell changes only when the whole run was made
      grid, moves := g, ms;
      if out.Done? {
        assert ps[..k] == ps;
        b := bb;
        if g0[b0] == 0 {
          SlidFacts(g0, b0, ps);
        }
      }
      if out.Fail? && Chain(m, n, b0, ps) {
        ChainLink(m, n, b0, ps, k);
      }
    }

    /**
     * `blank(ps, fs)`: bring the blank to one of the cells `ps` along the route `Route` finds. A
     * clean route arrives and leaves the frozen cells as they were.
     */
    method Blank(ps: seq<int>, fs: seq<int>) returns (out: Outcome, ghost clean: bool, ghost route: seq<int>)
      requires Ready() && Cells(m, n, ps) && Cells(m, n, fs)
      modifies this
      ensures Valid() && m == old(m) && n == old(n) && flipped == old(flipped)
      ensures target == old(target) && origin == old(origin)
      ensures old(Replays()) ==> Replays()
      ensures out.Fail? ==> out.why == Unreachable || out.why == InvalidMove
      ensures out.Done? ==> Ready() && Chain(m, n, old(b), route) && Cells(m, n, route) && b == End(old(b), route)
      ensures out.Done? ==> grid == Slid(old(grid), old(b), route)
      ensures out.Done? ==> moves == Logged(old(moves), old(grid), old(b), route)
      ensures old(b) in ps ==> out.Done? && clean && grid == old(grid) && b == old(b) && moves == old(moves)
      ensures clean ==> out.Done? && b in ps && Avoids(route, fs)
      ensures clean ==> forall q :: 0 <= q < m * n && q in fs && q != old(b) ==> grid[q] == old(grid)[q]
      ensures clean ==> forall r {:trigger Chain(m, n, old(b), r)} :: Chain(m, n, old(b), r) && r != [] && Avoids(r, fs) && r[|r| - 1] in ps ==> |route| <= |r|
      ensures forall r {:trigger Chain(m, n, old(b), r)} :: Chain(m, n, old(b), r) && r != [] && Avoids(r, fs) && |r| < m + n && ps == [r[|r| - 1]] ==> clean
    {
      var r;
      r, clean := Route(m, n, b, ps, fs);
      if r.None? {
        out, route := Fail(Unreachable), [];
        return;
      }
      var ms := r.value;
      route := ms;
      ghost var g0, b0 := grid, b;
      ghost var k;
      out, k := Move(ms);
      if out.Done? {
        assert ms[..k] == ms;
      }
      if clean {
        SlidFacts(g0, b0, route);
      }
    }

    /**
     * `place(t, p, fs)`: log the start of the placement, then carry tile `t` right until it is
     * in `p`'s column, up until it is in `p`'s row, and left until it is in `p`'s column, each
     * step bringing the blank next to the tile (keeping off `fs` and the tile itself) and
     * sliding the tile into it. When every route is clean, the tile ends in `p`'s column, in
     * the higher of its own row and `p`'s row, and the frozen cells keep their tiles.
     */
    method Place(t: int, p: int, fs: seq<int>) returns (out: Outcome, ghost clean: bool, ghost from: int, ghost at: int)
      requires Ready() && 0 <= p < m * n && Cells(m, n, fs)
      modifies this
      ensures Valid() && m == old(m) && n == old(n) && flipped == old(flipped)
      ensures target == old(target) && origin == old(origin)
      ensures old(Replays()) ==> Replays()
      ensures out == Fail(NotFound) <==> t !in old(grid)
      ensures out.Fail? ==> out.why == NotFound || out.why == Unreachable || out.why == InvalidMove
      ensures t in old(grid) ==> IndexOf(old(grid), t) == Some(from)
      ensures out.Done? ==> Ready() && Markers(moves) == Markers(old(moves)) + [t]
      ensures out.Done? ==>
        0 <= at < m * n && Col(m, at) == Col(m, p) && Row(m, at) == (if Row(m, from) < Row(m, p) then Row(m, from) else Row(m, p))
      ensures out.Done? && clean && t != 0 ==> grid[at] == t && Frozen(old(grid), grid, fs, t)
    {
      MarkerReplays(m, n, origin, moves, grid, t);
      moves := moves + [Placing(t)];
      FilterAppend(old(moves), [Placing(t)]);
      clean, from, at := true, -1, -1;
      var found := IndexOf(grid, t);
      if found.None? {
        return Fail(NotFound), clean, from, at;
      }
      var s := found.value;
      from := s;
      assert 0 <= Row(m, p) < n && 0 <= Col(m, p) < m by {
        Steps(m, n, p);
      }
      ghost var g0 := grid;
      out, clean, s := CarryRight(t, s, Col(m, p), fs, clean);
      if out.Fail? {
        return;
      }
      ghost var g1 := grid;
      out, clean, s := CarryUp(t, s, Row(m, p), fs, clean);
      if out.Fail? {
        return;
      }
      ghost var g2 := grid;
      out, clean, s := CarryLeft(t, s, Col(m, p), fs, clean);
      if out.Fail? {
        return;
      }
      at := s;
      if clean && t != 0 {
        FrozenTrans(g0, g1, g2, fs, t);
        FrozenTrans(g0, g2, grid, fs, t);
      }
    }

    /** The first loop of `place`: carry the tile right, one cell at a time, until it is in column `c`. */
    method CarryRight(t: int, s0: nat, c: int, fs: seq<int>, ghost clean0: bool) returns (out: Outcome, ghost clean: bool, s: nat)
      requires Ready() && s0 < m * n && c < m && Cells(m, n, fs)
      requires clean0 && t != 0 ==> grid[s0] == t
      modifies this
      ensures Valid() && m == old(m) && n == old(n) && flipped == old(flipped)
      ensures target == old(target) && origin == old(origin)
      ensures old(Replays()) ==> Replays()
      ensures out.Fail? ==> out.why == Unreachable || out.why == InvalidMove
      ensures out.Done? ==> Ready() && Markers(moves) == Markers(old(moves))
      ensures clean ==> clean0
      ensures out.Done? ==> s < m * n && Row(m, s) == Row(m, s0) && Col(m, s) == (if Col(m, s0) < c then c else Col(m, s0))
      ensures out.Done? && clean && t != 0 ==> grid[s] == t && Frozen(old(grid), grid, fs, t)
    {
      s, clean, out := s0, clean0, Done;
      Steps(m, n, s);
      while Col(m, s) < c
        invariant Ready() && m == old(m) && n == old(n) && flipped == old(flipped)
        invariant target == old(target) && origin == old(origin) && out == Done && (clean ==> clean0)
        invariant old(Replays()) ==> Replays()
        invariant s < m * n && Row(m, s) == Row(m, s0) && Col(m, s0) <= Col(m, s)
        invariant Col(m, s) <= (if Col(m, s0) < c then c else Col(m, s0))
        invariant Markers(moves) == Markers(old(moves))
        invariant clean && t != 0 ==> grid[s] == t && Frozen(old(grid), grid, fs, t)
        decreases c - Col(m, s)
      {
        Steps(m, n, s);
        ghost var g1 := grid;
        out, clean := Carry(t, s, s + 1, fs, clean);
        if out.Fail? {
          return;
        }
        FrozenTrans(old(grid), g1, grid, fs, t);
        s := s + 1;
      }
    }

    /** The second loop of `place`: carry the tile up, one cell at a time, until it is in row `r`. */
    method CarryUp(t: int, s0: nat, r: int, fs: seq<int>, ghost clean0: bool) returns (out: Outcome, ghost clean: bool, s: nat)
      requires Ready() && s0 < m * n && 0 <= r && Cells(m, n, fs)
      requires clean0 && t != 0 ==> grid[s0] == t
      modifies this
      ensures Valid() && m == old(m) && n == old(n) && flipped == old(flipped)
      ensures target == old(target) && origin == old(origin)
      ensures old(Replays()) ==> Replays()
      ensures out.Fail? ==> out.why == Unreachable || out.why == InvalidMove
      ensures out.Done? ==> Ready() && Markers(moves) == Markers(old(moves))
      ensures clean ==> clean0
      ensures out.Done? ==> s < m * n && Col(m, s) == Col(m, s0) && Row(m, s) == (if Row(m, s0) < r then Row(m, s0) else r)
      ensures out.Done? && clean && t != 0 ==> grid[s] == t && Frozen(old(grid), grid, fs, t)
    {
      s, clean, out := s0, clean0, Done;
      Steps(m, n, s);
      while Row(m, s) > r
        invariant Ready() && m == old(m) && n == old(n) && flipped == old(flipped)
        invariant target == old(target) && origin == old(origin) && out == Done && (clean ==> clean0)
        invariant old(Replays()) ==> Replays()
        invariant s < m * n && Col(m, s) == Col(m, s0) && Row(m, s) <= Row(m, s0)
        invariant (if Row(m, s0) < r then Row(m, s0) else r) <= Row(m, s)
        invariant Markers(moves) == Markers(old(moves))
        invariant clean && t != 0 ==> grid[s] == t && Frozen(old(grid), grid, fs, t)
        decreases Row(m, s)
      {
        Steps(m, n, s);
        ghost var g1 := grid;
        out, clean := Carry(t, s, s - m, fs, clean);
        if out.Fail? {
          return;
        }
        FrozenTrans(old(grid), g1, grid, fs, t);
        s := s - m;
      }
    }

    /** The third loop of `place`: carry the tile left, one cell at a time, until it is in column `c`. */
    method CarryLeft(t: int, s0: nat, c: int, fs: seq<int>, ghost clean0: bool) returns (out: Outcome, ghost clean: bool, s: nat)
      requires Ready() && s0 < m * n && 0 <= c && Cells(m, n, fs)
      requires clean0 && t != 0 ==> grid[s0] == t
      modifies this
      ensures Valid() && m == old(m) && n == old(n) && flipped == old(flipped)
      ensures target == old(target) && origin == old(origin)
      ensures old(Replays()) ==> Replays()
      ensures out.Fail? ==> out.why == Unreachable || out.why == InvalidMove
      ensures out.Done? ==> Ready() && Markers(moves) == Markers(old(moves))
      ensures clean ==> clean0
      ensures out.Done? ==> s < m * n && Row(m, s) == Row(m, s0) && Col(m, s) == (if Col(m, s0) < c then Col(m, s0) else c)
      ensures out.Done? && clean && t != 0 ==> grid[s] == t && Frozen(old(grid), grid, fs, t)
    {
      s, clean, out := s0, clean0, Done;
      Steps(m, n, s);
      while Col(m, s) > c
        invariant Ready() && m == old(m) && n == old(n) && flipped == old(flipped)
        invariant target == old(target) && origin == old(origin) && out == Done && (clean ==> clean0)
        invariant old(Replays()) ==> Replays()
        invariant s < m * n && Row(m, s) == Row(m, s0) && Col(m, s) <= Col(m, s0)
        invariant (if Col(m, s0) < c then Col(m, s0) else c) <= Col(m, s)
        invariant Markers(moves) == Markers(old(moves))
        invariant clean && t != 0 ==> grid[s] == t && Frozen(old(grid), grid, fs, t)
        decreases Col(m, s)
      {
        Steps(m, n, s);
        ghost var g1 := grid;
        out, clean := Carry(t, s, s - 1, fs, clean);
        if out.Fail? {
          return;
        }
        FrozenTrans(old(grid), g1, grid, fs, t);
        s := s - 1;
      }
    }

    /**
     * One step of `place`: `blank([q], fs + [s])` then `move([s])`, carrying the tile from `s`
     * to its neighbour `q`. A clean step keeps the tiles of the frozen cells.
     */
    method Carry(t: int, s: nat, q: nat, fs: seq<int>, ghost clean0: bool) returns (out: Outcome, ghost clean: bool)
      requires Ready() && s < m * n && q < m * n && Neighbours(m, s, q) && Cells(m, n, fs)
      requires clean0 && t != 0 ==> grid[s] == t
      modifies this
      ensures Valid() && m == old(m) && n == old(n) && flipped == old(flipped)
      ensures target == old(target) && origin == old(origin)
      ensures old(Replays()) ==> Replays()
      ensures out.Fail? ==> out.why == Unreachable || out.why == InvalidMove
      ensures out.Done? ==> Ready() && Markers(moves) == Markers(old(moves))
      ensures clean ==> clean0
      ensures out.Done? && clean && t != 0 ==> grid[q] == t
      ensures out.Done? && clean && t != 0 ==> Frozen(old(grid), grid, fs, t)
      ensures (clean0 && (old(b) == q || exists r {:trigger Chain(m, n, old(b), r)} ::
                 Chain(m, n, old(b), r) && r != [] && Avoids(r, fs + [s]) && |r| < m + n && r[|r| - 1] == q)) ==>
        out.Done? && clean
    {
      ghost var g0 := grid;
      ghost var c, route;
      out, c, route := Blank([q], fs + [s]);
      clean := clean0 && c;
      if out.Fail? {
        return;
      }
      if clean && t != 0 {
        RouteFrozen(g0, grid, old(b), fs, s, t);
      }
      LoggedMarkers(old(moves), g0, old(b), route);
      ghost var g1, b1, log1 := grid, b, moves;
      ghost var k;
      NextTo(m, n, s, q);
      out, k := Move([s]);
      if out.Done? {
        assert [s][..k] == [s];
        LoggedMarkers(log1, g1, b1, [s]);
        SlidOne(g1, b1, s);
        if clean && t != 0 {
          SlideFrozen(g1, b1, s, fs, t);
          FrozenTrans(g0, g1, grid, fs, t);
        }
      }
    }

    /**
     * The loop of `solveit`: place target tiles `0` to `m - 2` in cells `0` to `m - 2`, freezing
     * each cell once its tile is placed. When every placement is clean and the target repeats
     * no value, those cells end up as in the target.
     */
    method PlaceRow() returns (out: Outcome, ghost clean: bool)
      requires Ready()
      modifies this
      ensures Valid() && m == old(m) && n == old(n) && flipped == old(flipped)
      ensures target == old(target) && origin == old(origin)
      ensures old(Replays()) ==> Replays()
      ensures out.Fail? ==> out.why == NotFound || out.why == Unreachable || out.why == InvalidMove
      ensures out.Done? ==> Ready()
      ensures out.Done? && clean && Distinct(target) ==> forall j :: 0 <= j < m - 1 ==> grid[j] == target[j]
    {
      var fs: seq<int> := [];
      var i := 0;
      out, clean := Done, true;
      while i < m - 1
        invariant Ready() && m == old(m) && n == old(n) && flipped == old(flipped)
        invariant target == old(target) && origin == old(origin) && out == Done
        invariant old(Replays()) ==> Replays()
        invariant i <= m - 1 && fs == Upto(i)
        invariant clean && Distinct(target) ==> forall j :: 0 <= j < i ==> grid[j] == target[j]
      {
        out, clean := PlaceNext(i, fs, clean);
        if out.Fail? {
          return;
        }
        fs := fs + [i];
        i := i + 1;
      }
    }

    /** One turn of the loop of `solveit`: place target tile `i` in cell `i`, keeping off the cells before it. */
    method PlaceNext(i: nat, fs: seq<int>, ghost clean0: bool) returns (out: Outcome, ghost clean: bool)
      requires Ready() && i < m - 1 && fs == Upto(i)
      requires clean0 && Distinct(target) ==> forall j :: 0 <= j < i ==> grid[j] == target[j]
      modifies this
      ensures Valid() && m == old(m) && n == old(n) && flipped == old(flipped)
      ensures target == old(target) && origin == old(origin)
      ensures old(Replays()) ==> Replays()
      ensures out.Fail? ==> out.why == NotFound || out.why == Unreachable || out.why == InvalidMove
      ensures out.Done? ==> Ready()
      ensures clean ==> clean0
      ensures out.Done? && clean && Distinct(target) ==> forall j :: 0 <= j <= i ==> grid[j] == target[j]
    {
      ghost var g0 := grid;
      ghost var c, from, at;
      out, c, from, at := Place(target[i], i, fs);
      clean := clean0 && c;
      if out.Done? && clean && Distinct(target) {
        TargetTiles(target, i);
        TopRowStep(m, g0, grid, target, i, from, at);
      }
    }

    /**
     * The middle of `solveit` and of `solve2x3`: unless the target's last tile of the top row
     * is in its cell already (`inPlace`, which changes nothing), place it in the cell below,
     * keeping off the cells placed before. A clean placement after a right start brings it
     * there and keeps the rest of the row right.
     */
    method LiftLast(ghost placed: bool) returns (out: Outcome, ghost ok: bool, inPlace: bool)
      requires Ready()
      requires placed ==> Distinct(target) && forall j :: 0 <= j < m - 1 ==> grid[j] == target[j]
      modifies this
      ensures Valid() && m == old(m) && n == old(n) && flipped == old(flipped)
      ensures target == old(target) && origin == old(origin)
      ensures old(Replays()) ==> Replays()
      ensures out.Fail? ==> out.why == NotFound || out.why == Unreachable || out.why == InvalidMove
      ensures out.Done? ==> Ready()
      ensures inPlace ==> out.Done? && grid == old(grid) && b == old(b) && moves == old(moves)
      ensures inPlace ==> grid[m - 1] == target[m - 1]
      ensures ok ==> placed
      ensures out.Done? && !inPlace && ok ==>
        grid[2 * m - 1] == target[m - 1] && forall j :: 0 <= j < m - 1 ==> grid[j] == target[j]
    {
      var t := target[m - 1];
      var found := IndexOf(grid, t);
      ok, inPlace := false, false;
      if found.None? {
        return Fail(NotFound), ok, inPlace;
      }
      if found.value == m - 1 {
        return Done, placed, true;
      }
      var p := m - 3;
      var q := p + 2 + m;
      ghost var g0 := grid;
      ghost var c, from, at;
      out, c, from, at := Place(t, q, Upto(m - 1));
      if out.Fail? {
        return;
      }
      ok := placed && c;
      if ok {
        TargetTiles(target, m - 1);
        LiftedBelow(m, g0, grid, target, from, at, q);
      }
    }

    /**
     * The end of `solveit`'s top row, its last tile waiting below its cell: with the blank in the
     * row's last cell, slide the tile up; otherwise bring the blank below the third cell from
     * the right and play the end game. A clean run after a right start leaves the whole top row
     * right.
     */
    method EndRow(ghost ok: bool) returns (out: Outcome, ghost clean: bool)
      requires Ready() && m >= 3
      requires ok ==> Distinct(target) && grid[2 * m - 1] == target[m - 1]
      requires ok ==> forall j :: 0 <= j < m - 1 ==> grid[j] == target[j]
      modifies this
      ensures Valid() && m == old(m) && n == old(n) && flipped == old(flipped)
      ensures target == old(target) && origin == old(origin)
      ensures old(Replays()) ==> Replays()
      ensures out.Fail? ==> out.why == Unreachable || out.why == InvalidMove
      ensures out.Done? ==> Ready()
      ensures out.Done? && clean && ok ==> forall j :: 0 <= j < m ==> grid[j] == target[j]
    {
      var p := m - 3;
      if b == p + 2 {
        out := SlideUp(ok);
        clean := true;
        return;
      }
      ghost var c;
      out, c := BlankBelow(ok);
      if out.Fail? {
        clean := false;
        return;
      }
      ghost var c2;
      out, c2 := TurnEnd(ok && c);
      clean := c && c2;
    }

    /** With the blank in the top row's last cell, slide the tile below it up. */
    method SlideUp(ghost ok: bool) returns (out: Outcome)
      requires Ready() && b == m - 1
      requires ok ==> grid[2 * m - 1] == target[m - 1] && forall j :: 0 <= j < m - 1 ==> grid[j] == target[j]
      modifies this
      ensures Valid() && m == old(m) && n == old(n) && flipped == old(flipped)
      ensures target == old(target) && origin == old(origin)
      ensures old(Replays()) ==> Replays()
      ensures out.Done? && Ready()
      ensures ok ==> forall j :: 0 <= j < m ==> grid[j] == target[j]
    {
      var q := m - 1 + m;
      ghost var g0 := grid;
      ghost var k;
      assert Chain(m, n, b, [q]) by {
        VerticalLink(m, n, m - 1, q);
        ChainSnoc(m, n, b, [], q);
        assert [] + [q] == [q];
      }
      out, k := Move([q]);
      assert grid == Swap(g0, m - 1, q) by {
        assert [q][..k] == [q];
        SlidOne(g0, m - 1, q);
      }
      if ok {
        SlideUpRow(m, g0, grid, target, q);
      }
    }

    /**
     * Bring the blank below the third cell from the right of the top row, keeping off the part
     * of the row already placed and the tile below the row's last cell.
     */
    method BlankBelow(ghost ok: bool) returns (out: Outcome, ghost clean: bool)
      requires Ready() && m >= 3
      requires ok ==> Distinct(target) && grid[2 * m - 1] == target[m - 1]
      requires ok ==> forall j :: 0 <= j < m - 1 ==> grid[j] == target[j]
      modifies this
      ensures Valid() && m == old(m) && n == old(n) && flipped == old(flipped)
      ensures target == old(target) && origin == old(origin)
      ensures old(Replays()) ==> Replays()
      ensures out.Fail? ==> out.why == Unreachable || out.why == InvalidMove
      ensures out.Done? ==> Ready()
      ensures clean ==> out.Done? && b == 2 * m - 3
      ensures clean && ok ==> grid[2 * m - 1] == target[m - 1] && forall j :: 0 <= j < m - 1 ==> grid[j] == target[j]
    {
      var p := m - 3;
      var q := p + 2 + m;
      var fs := Upto(m - 1) + [q];
      ghost var g0, b0 := grid, b;
      ghost var route;
      out, clean, route := Blank([p + m], fs);
      if clean && ok {
        EndRowKept(m, n, g0, grid, target, b0, q, fs);
      }
    }

    /** The eight-slide end game of `solveit`'s top row, played with the blank below its third cell from the right. */
    method TurnEnd(ghost ok: bool) returns (out: Outcome, ghost clean: bool)
      requires Ready() && m >= 3
      requires ok ==> b == 2 * m - 3 && grid[2 * m - 1] == target[m - 1]
      requires ok ==> forall j :: 0 <= j < m - 1 ==> grid[j] == target[j]
      modifies this
      ensures Valid() && m == old(m) && n == old(n) && flipped == old(flipped)
      ensures target == old(target) && origin == old(origin)
      ensures old(Replays()) ==> Replays()
      ensures out.Fail? ==> out.why == InvalidMove
      ensures out.Done? ==> Ready()
      ensures ok ==> out.Done? && clean
      ensures out.Done? && clean ==> forall j :: 0 <= j < m ==> grid[j] == target[j]
    {
      var es := EndGame(m);
      ghost var after := Slid(grid, b, es);
      if ok {
        assert RowAwaitsEnd(m, grid, target);
        EndGameRow(m, grid, after, target);
        assert Chain(m, n, b, es) by {
          EndGameChain(m, n);
        }
      }
      ghost var k;
      out, k := Move(es);
      clean := ok && out.Done?;
      if clean {
        assert es[..k] == es;
      }
    }

    /**
     * The end of `solve2x3`'s top row on a board two wide, its second tile waiting below its
     * cell: with the blank in that cell, slide the tile up; otherwise bring the blank to the
     * left cell of the second row and play the two-column end game. A clean run after a right
     * start leaves the top row right.
     */
    method EndPair(ghost ok: bool) returns (out: Outcome, ghost clean: bool)
      requires Ready() && m == 2 && n >= 3
      requires ok ==> Distinct(target) && grid[3] == target[1] && grid[0] == target[0]
      modifies this
      ensures Valid() && m == old(m) && n == old(n) && flipped == old(flipped)
      ensures target == old(target) && origin == old(origin)
      ensures old(Replays()) ==> Replays()
      ensures out.Fail? ==> out.why == Unreachable || out.why == InvalidMove
      ensures out.Done? ==> Ready()
      ensures out.Done? && clean && ok ==> grid[0] == target[0] && grid[1] == target[1]
    {
      if b == 1 {
        out := SlideUp(ok);
        clean := true;
        return;
      }
      ghost var c;
      out, c := PairBlank(ok);
      if out.Fail? {
        clean := false;
        return;
      }
      ghost var c2;
      out, c2 := PairTurn(ok && c);
      clean := c && c2;
    }

    /** Bring the blank to the left cell of the second row of a board two wide, keeping off cells 0 and 3. */
    method PairBlank(ghost ok: bool) returns (out: Outcome, ghost clean: bool)
      requires Ready() && m == 2 && n >= 3
      requires ok ==> Distinct(target) && grid[3] == target[1] && grid[0] == target[0]
      modifies this
      ensures Valid() && m == old(m) && n == old(n) && flipped == old(flipped)
      ensures target == old(target) && origin == old(origin)
      ensures old(Replays()) ==> Replays()
      ensures out.Fail? ==> out.why == Unreachable || out.why == InvalidMove
      ensures out.Done? ==> Ready()
      ensures clean ==> out.Done? && b == 2
      ensures clean && ok ==> grid[3] == target[1] && grid[0] == target[0]
    {
      var fs := [0, 3];
      assert fs == Upto(1) + [3];
      ghost var g0, b0 := grid, b;
      ghost var route;
      out, clean, route := Blank([2], fs);
      if clean && ok {
        EndRowKept(m, n, g0, grid, target, b0, 3, fs);
      }
    }

    /** The sixteen-slide end game of `solve2x3`, played with the blank at cell 2. */
    method PairTurn(ghost ok: bool) returns (out: Outcome, ghost clean: bool)
      requires Ready() && m == 2 && n >= 3
      requires ok ==> b == 2 && grid[3] == target[1] && grid[0] == target[0]
      modifies this
      ensures Valid() && m == old(m) && n == old(n) && flipped == old(flipped)
      ensures target == old(target) && origin == old(origin)
      ensures old(Replays()) ==> Replays()
      ensures out.Fail? ==> out.why == InvalidMove
      ensures out.Done? ==> Ready()
      ensures ok ==> out.Done? && clean
      ensures out.Done? && clean ==> grid[0] == target[0] && grid[1] == target[1]
    {
      ghost var g1 := grid;
      if ok {
        NarrowEndGameChain(n);
      }
      ghost var k;
      out, k := Move(NarrowEndGame());
      clean := ok && out.Done?;
      if clean {
        assert NarrowEndGame()[..k] == NarrowEndGame();
        NarrowEndGameEffect(g1);
      }
    }

    /**
     * `reduce()`: solve the board below the top row as a puzzle of its own, `m` wide and one row
     * shorter, then take its board back (transposed back when that puzzle turned it) below the
     * top row, find the blank again and extend the log with its moves. The top row is left as
     * it was, and a clean run whose target has no repeats puts the rest of the target in place.
     */
    method Reduce() returns (out: Outcome, ghost clean: bool)
      requires Ready()
      modifies this
      decreases m * n, 1
      ensures Valid() && m == old(m) && n == old(n) && flipped == old(flipped)
      ensures target == old(target) && origin == old(origin)
      ensures old(Replays()) ==> Replays()
      ensures out.Fail? ==> grid == old(grid) && b == old(b) && moves == old(moves)
      ensures out.Done? ==> Ready() && grid[..m] == old(grid)[..m]
      ensures out.Done? ==> |moves| >= |old(moves)| && moves[..|old(moves)|] == old(moves)
      ensures out.Done? && clean && Distinct(target) ==> grid[m..] == target[m..]
      ensures out.Done? ==> IndexOf(grid, 0) == Some(b)
    {
      clean := false;
      var sub;
      out, sub := Lower();
      if out.Fail? {
        return;
      }
      ghost var origin0 := sub.origin;
      assert |origin0| == sub.m * sub.n && Unturn(sub.flipped, origin0, sub.m) == grid[m..];
      out, clean := sub.Solve();
      if out.Fail? {
        return;
      }
      assert sub.grid[sub.b] == 0;
      Absorb(sub.m, sub.n, sub.flipped, sub.grid, sub.moves, origin0, sub.target, clean && Distinct(target));
    }

    /**
     * The puzzle `reduce()` hands the rest of the board to: the target and the board below the
     * top row, `m` wide and one row shorter, set up as the constructor does. When the constructor
     * refuses them, there is no puzzle and the refusal is reported.
     */
    method Lower() returns (out: Outcome, sub: Puzzle?)
      requires Ready()
      ensures out.Fail? <==> sub == null
      ensures out.Fail? <==> Configure(m, n - 1, target[m..], Some(grid[m..])).Err?
      ensures out.Fail? ==> out.why == (if Configure(m, n - 1, target[m..], Some(grid[m..])).error == NoBlank then NotFound else BadSetup)
      ensures sub != null ==> fresh(sub) && sub.Ready() && sub.m * sub.n < m * n && m + sub.m * sub.n == m * n
      ensures sub != null ==> (sub.flipped ==> Transpose(sub.target, sub.m) == target[m..]) && (!sub.flipped ==> sub.target == target[m..])
      ensures sub != null && Distinct(target) ==> Distinct(sub.target)
      ensures sub != null ==> sub.grid == Configure(m, n - 1, target[m..], Some(grid[m..])).value.grid && sub.moves == [] && sub.origin == sub.grid
      ensures sub != null ==> Lowered(m, n, sub.flipped, sub.m, sub.n) && (sub.flipped <==> m > n - 1) && Unturn(sub.flipped, sub.grid, sub.m) == grid[m..]
      ensures sub != null && Distinct(grid) ==> sub.Replays()
    {
      var setup := Configure(m, n - 1, target[m..], Some(grid[m..]));
      if setup.Err? {
        return (if setup.error == NoBlank then Fail(NotFound) else Fail(BadSetup)), null;
      }
      Reduced(m, n, target, grid[m..], setup.value);
      if Distinct(grid) {
        DistinctDrop(grid, m);
      }
      sub := new Puzzle(setup.value);
      out := Done;
    }

    /**
     * The end of `reduce()`: the solved puzzle's board, transposed back when it was turned,
     * replaces everything below the top row; the blank is found again and the log extended.
     */
    method Absorb(w: nat, h: nat, turned: bool, s1: seq<int>, sublog: seq<Entry>, ghost s0: seq<int>, ghost t: seq<int>, ghost solved: bool)
      requires Ready() && w > 0 && m + w * h == m * n && |s1| == w * h && 0 in s1
      requires Unturn(turned, t, w) == target[m..]
      requires solved ==> s1 == t
      modifies this
      ensures Ready() && m == old(m) && n == old(n) && flipped == old(flipped)
      ensures target == old(target) && origin == old(origin)
      ensures grid[..m] == old(grid)[..m]
      ensures |moves| >= |old(moves)| && moves[..|old(moves)|] == old(moves)
      ensures solved ==> grid[m..] == target[m..]
      ensures grid == old(grid)[..m] + Unturn(turned, s1, w) && IndexOf(grid, 0) == Some(b) && moves == old(moves) + sublog
      ensures (old(Replays()) && Lowered(m, n, turned, w, h) && |s0| == w * h &&
               Unturn(turned, s0, w) == old(grid)[m..] && Replay(w, h, s0, sublog) == Some(s1)) ==> Replays()
    {
      AbsorbReplays(m, n, turned, w, h, origin, moves, grid, s0, sublog, s1);
      ghost var cells := |grid|;
      grid, b := Restack(grid[..m], w, h, turned, s1);
      assert |grid| == cells;
      moves := moves + sublog;
      assert moves[..|old(moves)|] == old(moves);
    }

    /** `solve2x2()`: place the first tile, bring the blank to the last cell, and check the board. */
    method Solve2x2() returns (out: Outcome, ghost clean: bool)
      requires Ready() && m == 2 && n == 2
      modifies this
      ensures Valid() && m == old(m) && n == old(n) && flipped == old(flipped)
      ensures target == old(target) && origin == old(origin)
      ensures old(Replays()) ==> Replays()
      ensures out.Fail? ==> out.why in {NotFound, Unreachable, InvalidMove, Impossible}
      ensures out.Done? ==> Ready() && grid == target
      ensures out == Fail(Impossible) ==> Ready() && grid != target
    {
      ghost var from, at, route;
      out, clean, from, at := Place(target[0], 0, []);
      if out.Fail? {
        return;
      }
      out, clean, route := Blank([3], [0]);
      if out.Fail? {
        return;
      }
      if grid != target {
        out := Fail(Impossible);
      }
    }

    /**
     * `solveit()`: place the top row's first `m - 1` tiles, bring its last tile below its cell
     * unless it is in place and finish the row with the end game, then solve the rest of the
     * board as a reduced puzzle. A clean run whose target has no repeats ends on the target.
     */
    method SolveIt() returns (out: Outcome, ghost clean: bool)
      requires Ready() && m >= 3
      modifies this
      decreases m * n, 2
      ensures Valid() && m == old(m) && n == old(n) && flipped == old(flipped)
      ensures target == old(target) && origin == old(origin)
      ensures old(Replays()) ==> Replays()
      ensures out.Done? ==> Ready()
      ensures out.Done? && clean && Distinct(target) ==> grid == target
    {
      ghost var c1, c2, c3, c4;
      var inPlace;
      clean := false;
      out, c1 := PlaceRow();
      if out.Fail? {
        return;
      }
      out, c2, inPlace := LiftLast(c1 && Distinct(target));
      if out.Fail? {
        return;
      }
      c3 := true;
      if !inPlace {
        out, c3 := EndRow(c2);
        if out.Fail? {
          return;
        }
      }
      ghost var row := c1 && Distinct(target) && (inPlace || (c2 && c3));
      ghost var g1 := grid;
      assert m <= |g1| by {
        MulMono(1, n, m);
      }
      assert row ==> forall j :: 0 <= j < m ==> g1[j] == target[j];
      out, c4 := Reduce();
      clean := row && c4;
      if out.Done? && clean {
        Rejoin(g1, grid, target, m);
      }
    }

    /**
     * The top row of `solve2x3()`: place the first tile, then, unless the second is in place,
     * bring it below its cell and finish the row with the two-column end game. A clean run on
     * a target without repeats leaves the top row right.
     */
    method PairRow() returns (out: Outcome, ghost row: bool)
      requires Ready() && m == 2 && n >= 3
      modifies this
      ensures Valid() && m == old(m) && n == old(n) && flipped == old(flipped)
      ensures target == old(target) && origin == old(origin)
      ensures old(Replays()) ==> Replays()
      ensures out.Done? ==> Ready()
      ensures out.Done? && row ==> Distinct(target) && forall j :: 0 <= j < m ==> grid[j] == target[j]
    {
      ghost var c1, c2, c3, from, at;
      var inPlace;
      row := false;
      ghost var g0 := grid;
      out, c1, from, at := Place(target[0], 0, []);
      if out.Fail? {
        return;
      }
      if c1 && Distinct(target) {
        TargetTiles(target, 0);
        TopRowStep(m, g0, grid, target, 0, from, at);
      }
      out, c2, inPlace := LiftLast(c1 && Distinct(target));
      if out.Fail? {
        return;
      }
      c3 := true;
      if !inPlace {
        out, c3 := EndPair(c2);
        if out.Fail? {
          return;
        }
      }
      row := c1 && Distinct(target) && (inPlace || (c2 && c3));
    }

    /**
     * `solve2x3()`, for every board two wide and at least three high: place the first tile,
     * bring the second below its cell unless it is in place and finish the row with the
     * two-column end game, then solve the rest as a reduced puzzle.
     */
    method SolveTwoWide() returns (out: Outcome, ghost clean: bool)
      requires Ready() && m == 2 && n >= 3
      modifies this
      decreases m * n, 2
      ensures Valid() && m == old(m) && n == old(n) && flipped == old(flipped)
      ensures target == old(target) && origin == old(origin)
      ensures old(Replays()) ==> Replays()
      ensures out.Done? ==> Ready()
      ensures out.Done? && clean && Distinct(target) ==> grid == target
    {
      ghost var row, c4;
      clean := false;
      out, row := PairRow();
      if out.Fail? {
        return;
      }
      ghost var g1 := grid;
      out, c4 := Reduce();
      clean := row && c4;
      if out.Done? && clean {
        Rejoin(g1, grid, target, m);
      }
    }

    /**
     * `solve()`: the plan `Strategy` picks for the board. Every run that ends without a failure
     * on the 2 by 2 board, and every clean one on the others, ends on the target when it has no
     * repeats; the log holds the moves.
     */
    method Solve() returns (out: Outcome, ghost clean: bool)
      requires Ready()
      modifies this
      decreases m * n, 3
      ensures Valid() && m == old(m) && n == old(n) && flipped == old(flipped)
      ensures target == old(target) && origin == old(origin)
      ensures old(Replays()) ==> Replays()
      ensures out.Done? ==> Ready()
      ensures out.Done? && m == 2 && n == 2 ==> grid == target
      ensures out.Done? && clean && Distinct(target) ==> grid == target
    {
      StrategyFits(m, n);
      match Strategy(m, n)
      case TwoByTwo =>
        out, clean := Solve2x2();
      case TwoWide =>
        out, clean := SolveTwoWide();
      case General =>
        out, clean := SolveIt();
    }
  }
}
