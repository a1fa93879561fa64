/**
 * The move log of a puzzle. A slide is logged by the tile it moves (`('M', tile)`), and the
 * placer logs a marker (`('P', tile)`) before it starts on a tile. The log is kept compacted:
 * a slide that undoes the previous slide (skipping markers) cancels it. Replaying the log
 * slides each logged tile into the blank, which is how the log is played back on a copy of
 * the starting board.
 */
module MoveLog {
  import opened Wrappers
  import opened Lists
  import opened Grid

  datatype Entry =
    | Slide(tile: int)   // ('M', tile): the tile slid into the blank
    | Placing(tile: int) // ('P', tile): the placer started on this tile

  /** The position of the last slide in the log, skipping markers after it. */
  function LastSlide(log: seq<Entry>): (r: Option<nat>)
    ensures r.Some? ==> r.value < |log| && log[r.value].Slide? &&
                        forall k :: r.value < k < |log| ==> log[k].Placing?
    ensures r.None? ==> forall k :: 0 <= k < |log| ==> log[k].Placing?
    decreases |log|
  {
    if log == [] then None
    else if log[|log| - 1].Slide? then Some(|log| - 1)
    else LastSlide(log[..|log| - 1])
  }

  /** The last slide is the one after which only markers follow; with markers only, there is none. */
  lemma LastSlideAt(log: seq<Entry>, i: int)
    requires -1 <= i < |log| && forall j :: i < j < |log| ==> log[j].Placing?
    ensures i >= 0 && log[i].Slide? ==> LastSlide(log) == Some(i)
    ensures i == -1 ==> LastSlide(log) == None
  {
    if i >= 0 && log[i].Slide? {
      assert LastSlide(log).Some?;
    }
  }

  /** The log after recording a slide of tile `x`: it cancels the last slide if that moved `x` too. */
  function Record(log: seq<Entry>, x: int): seq<Entry>
  {
    match LastSlide(log)
    case Some(i) => if log[i] == Slide(x) then log[..i] + log[i + 1..] else log + [Slide(x)]
    case None => log + [Slide(x)]
  }

  /** The tiles of the slide entries, in order. */
  function Slides(log: seq<Entry>): seq<int>
    decreases |log|
  {
    if log == [] then []
    else
      var last := log[|log| - 1];
      Slides(log[..|log| - 1]) + (if last.Slide? then [last.tile] else [])
  }

  /** The tiles of the markers, in order. */
  function Markers(log: seq<Entry>): seq<int>
    decreases |log|
  {
    if log == [] then []
    else
      var last := log[|log| - 1];
      Markers(log[..|log| - 1]) + (if last.Placing? then [last.tile] else [])
  }

  lemma {:induction false} FilterAppend(a: seq<Entry>, c: seq<Entry>)
    ensures Slides(a + c) == Slides(a) + Slides(c)
    ensures Markers(a + c) == Markers(a) + Markers(c)
    decreases |c|
  {
    if c == [] {
      assert a + c == a;
    } else {
      var k := |c| - 1;
      assert (a + c)[..|a + c| - 1] == a + c[..k];
      assert (a + c)[|a + c| - 1] == c[k];
      FilterAppend(a, c[..k]);
    }
  }

  predicate AllMarkers(c: seq<Entry>)
  {
    forall k :: 0 <= k < |c| ==> c[k].Placing?
  }

  lemma {:induction false} MarkersOnly(c: seq<Entry>)
    requires AllMarkers(c)
    ensures Slides(c) == []
    decreases |c|
  {
    if c != [] {
      MarkersOnly(c[..|c| - 1]);
    }
  }

  /** A stack of slides: pushing the tile on top pops it instead. */
  function Push(s: seq<int>, x: int): seq<int>
  {
    if s != [] && s[|s| - 1] == x then s[..|s| - 1] else s + [x]
  }

  /** Recording a slide never removes a marker, and acts on the slides as a cancelling stack. */
  lemma RecordEffect(log: seq<Entry>, x: int)
    ensures Markers(Record(log, x)) == Markers(log)
    ensures Slides(Record(log, x)) == Push(Slides(log), x)
  {
    match LastSlide(log)
    case None =>
      assert Record(log, x) == log + [Slide(x)];
      assert Slides(log) == [] by {
        MarkersOnly(log);
      }
      Appended(log, x);
    case Some(i) =>
      var s := Slides(log);
      assert s == Slides(log[..i]) + [log[i].tile] && s != [] && s[|s| - 1] == log[i].tile &&
        Slides(log[..i] + log[i + 1..]) == Slides(log[..i]) && Markers(log[..i] + log[i + 1..]) == Markers(log) by {
        AroundLastSlide(log, i);
      }
      if log[i] == Slide(x) {
        assert Record(log, x) == log[..i] + log[i + 1..];
        assert s[..|s| - 1] == Slides(log[..i]);
      } else {
        assert Record(log, x) == log + [Slide(x)];
        Appended(log, x);
      }
  }

  /** Appending a slide appends its tile to the slides and leaves the markers. */
  lemma Appended(log: seq<Entry>, x: int)
    ensures Slides(log + [Slide(x)]) == Slides(log) + [x] && Markers(log + [Slide(x)]) == Markers(log)
  {
    OneSlide(Slide(x));
    SlidesAppend(log, [Slide(x)]);
    MarkersAppend(log, [Slide(x)]);
  }

  /** Around its last slide a log's slides end with that slide, and dropping it drops no marker. */
  lemma AroundLastSlide(log: seq<Entry>, i: nat)
    requires i < |log| && log[i].Slide? && forall k :: i < k < |log| ==> log[k].Placing?
    ensures Slides(log) == Slides(log[..i]) + [log[i].tile]
    ensures Slides(log[..i] + log[i + 1..]) == Slides(log[..i])
    ensures Markers(log[..i] + log[i + 1..]) == Markers(log)
  {
    var before, e, tail := log[..i], log[i], log[i + 1..];
    assert log == (before + [e]) + tail && AllMarkers(tail) by {
      SplitAtLastSlide(log, i);
    }
    assert Slides(tail) == [] by {
      MarkersOnly(tail);
    }
    assert Slides([e]) == [e.tile] && Markers([e]) == [] by {
      OneSlide(e);
    }
    assert Slides(log) == Slides(before) + [e.tile] by {
      SlidesAppend(before, [e]);
      SlidesAppend(before + [e], tail);
    }
    assert Slides(before + tail) == Slides(before) by {
      SlidesAppend(before, tail);
    }
    assert Markers(before + tail) == Markers(log) by {
      MarkersAppend(before, [e]);
      MarkersAppend(before + [e], tail);
      MarkersAppend(before, tail);
    }
  }

  lemma SlidesAppend(a: seq<Entry>, c: seq<Entry>)
    ensures Slides(a + c) == Slides(a) + Slides(c)
  {
    FilterAppend(a, c);
  }

  lemma MarkersAppend(a: seq<Entry>, c: seq<Entry>)
    ensures Markers(a + c) == Markers(a) + Markers(c)
  {
    FilterAppend(a, c);
  }

  /** A log of one slide has that slide and no marker. */
  lemma OneSlide(e: Entry)
    requires e.Slide?
    ensures Slides([e]) == [e.tile] && Markers([e]) == []
  {
    assert [e][..0] == [];
  }

  /** No two consecutive slides move the same tile (so none undoes the one before it). */
  predicate Compacted(log: seq<Entry>)
  {
    var s := Slides(log);
    forall k :: 0 <= k < |s| - 1 ==> s[k] != s[k + 1]
  }

  /** Recording keeps a compacted log compacted. */
  lemma RecordCompacted(log: seq<Entry>, x: int)
    requires Compacted(log)
    ensures Compacted(Record(log, x))
  {
    RecordEffect(log, x);
    var s := Slides(log);
    var t := Slides(Record(log, x));
    if s != [] && s[|s| - 1] == x {
      assert forall k :: 0 <= k < |t| ==> t[k] == s[k];
    } else {
      assert forall k :: 0 <= k < |s| ==> t[k] == s[k];
    }
  }

  /** A slide that does not undo the last logged slide is appended. */
  lemma RecordAppends(log: seq<Entry>, x: int)
    requires Slides(log) == [] || Slides(log)[|Slides(log)| - 1] != x
    ensures Record(log, x) == log + [Slide(x)]
  {
    match LastSlide(log) {
      case None =>
      case Some(i) =>
        var before, tail := log[..i], log[i + 1..];
        assert log == before + [log[i]] + tail;
        MarkersOnly(tail);
        FilterAppend(before, [log[i]]);
        FilterAppend(before + [log[i]], tail);
    }
  }

  /** The compaction pass applied to a whole log, entry by entry. */
  function Compact(log: seq<Entry>): seq<Entry>
    decreases |log|
  {
    if log == [] then []
    else
      var last := log[|log| - 1];
      match last
      case Slide(x) => Record(Compact(log[..|log| - 1]), x)
      case Placing(_) => Compact(log[..|log| - 1]) + [last]
  }

  /** The compaction pass produces a compacted log and leaves a compacted log as it is. */
  lemma {:induction false} CompactIdempotent(log: seq<Entry>)
    ensures Compacted(Compact(log))
    ensures Compacted(log) ==> Compact(log) == log
    decreases |log|
  {
    if log != [] {
      var k := |log| - 1;
      var front := log[..k];
      assert log == front + [log[k]];
      CompactIdempotent(front);
      FilterAppend(front, [log[k]]);
      match log[k] {
        case Slide(x) =>
          RecordCompacted(Compact(front), x);
        case Placing(t) =>
          FilterAppend(Compact(front), [log[k]]);
          assert Slides(Compact(log)) == Slides(Compact(front));
      }
      if Compacted(log) {
        var s := Slides(log);
        assert Compacted(front) by {
          assert forall j :: 0 <= j < |Slides(front)| ==> Slides(front)[j] == s[j];
        }
        if log[k].Slide? {
          var sf := Slides(front);
          assert s == sf + [log[k].tile];
          if sf != [] {
            assert s[|sf| - 1] == sf[|sf| - 1] && s[|sf|] == log[k].tile;
          }
          RecordAppends(front, log[k].tile);
        }
      }
    }
  }

  /** Playing one entry back: a marker does nothing; a slide moves the tile into the blank next to it. */
  function Apply(m: nat, n: nat, g: seq<int>, e: Entry): (r: Option<seq<int>>)
    requires m > 0
    ensures r.Some? ==> |r.value| == |g| && multiset(r.value) == multiset(g)
  {
    match e
    case Placing(_) => Some(g)
    case Slide(x) =>
      match (IndexOf(g, x), IndexOf(g, 0))
      case (Some(p), Some(z)) => if Link(m, n, z, p) then SwapMultiset(g, z, p); Some(Swap(g, z, p)) else None
      case _ => None
  }

  /** Playing a log back from board `g`; nothing when some slide is not next to the blank. */
  function Replay(m: nat, n: nat, g: seq<int>, log: seq<Entry>): Option<seq<int>>
    requires m > 0
    decreases |log|
  {
    if log == [] then Some(g)
    else
      match Replay(m, n, g, log[..|log| - 1])
      case None => None
      case Some(h) => Apply(m, n, h, log[|log| - 1])
  }

  /** Playing back `a + c` is playing back `a`, then `c`. */
  lemma {:induction false} ReplayAppend(m: nat, n: nat, g: seq<int>, a: seq<Entry>, c: seq<Entry>)
    requires m > 0
    ensures Replay(m, n, g, a + c) ==
      (if Replay(m, n, g, a).None? then None else Replay(m, n, Replay(m, n, g, a).value, c))
    decreases |c|
  {
    if c == [] {
      assert a + c == a;
    } else {
      var k := |c| - 1;
      assert (a + c)[..|a + c| - 1] == a + c[..k];
      assert (a + c)[|a + c| - 1] == c[k];
      ReplayAppend(m, n, g, a, c[..k]);
    }
  }

  /** Markers do not change the board when played back. */
  lemma {:induction false} ReplayMarkers(m: nat, n: nat, g: seq<int>, c: seq<Entry>)
    requires m > 0
    requires AllMarkers(c)
    ensures Replay(m, n, g, c) == Some(g)
    decreases |c|
  {
    if c != [] {
      ReplayMarkers(m, n, g, c[..|c| - 1]);
    }
  }

  /** Sliding back the tile that was just slid restores the board. */
  lemma SlideBack(m: nat, n: nat, g1: seq<int>, x: int, g: seq<int>, b: nat, p: nat)
    requires m > 0 && Apply(m, n, g1, Slide(x)) == Some(g) && Distinct(g)
    requires b < |g| && p < |g| && g[b] == 0 && g[p] == x
    ensures Swap(g, b, p) == g1
  {
    var p1, z1 := IndexOf(g1, x).value, IndexOf(g1, 0).value;
    AdjacentMembers(m, n, p1, z1);
    assert g[z1] == x && g[p1] == 0;
    assert b == p1 && p == z1;
  }

  /** Logging a slide without compaction plays back to the board after the slide. */
  lemma ReplaySlide(m: nat, n: nat, o: seq<int>, log: seq<Entry>, g: seq<int>, b: nat, p: nat)
    requires m > 0 && Replay(m, n, o, log) == Some(g)
    requires Distinct(g) && b < |g| && g[b] == 0 && p < |g| && Link(m, n, b, p)
    ensures Replay(m, n, o, log + [Slide(g[p])]) == Some(Swap(g, b, p))
  {
    DistinctIndex(g, p);
    DistinctIndex(g, b);
    ReplayLast(m, n, o, log, Slide(g[p]));
  }

  /** Playing back one more entry. */
  lemma ReplayLast(m: nat, n: nat, o: seq<int>, a: seq<Entry>, e: Entry)
    requires m > 0
    ensures Replay(m, n, o, a + [e]) ==
      (if Replay(m, n, o, a).None? then None else Apply(m, n, Replay(m, n, o, a).value, e))
  {
    assert (a + [e])[..|a|] == a;
  }

  /** Markers at the end of a log do not change what it plays back to. */
  lemma ReplayTrailing(m: nat, n: nat, o: seq<int>, a: seq<Entry>, c: seq<Entry>)
    requires m > 0
    requires AllMarkers(c)
    ensures Replay(m, n, o, a + c) == Replay(m, n, o, a)
  {
    ReplayAppend(m, n, o, a, c);
    if Replay(m, n, o, a).Some? {
      ReplayMarkers(m, n, Replay(m, n, o, a).value, c);
    }
  }

  /** The log around its last slide: what comes after it is markers only. */
  lemma SplitAtLastSlide(log: seq<Entry>, i: nat)
    requires i < |log| && log[i].Slide? && forall k :: i < k < |log| ==> log[k].Placing?
    ensures log == (log[..i] + [log[i]]) + log[i + 1..]
    ensures AllMarkers(log[i + 1..])
  {
    var tail := log[i + 1..];
    forall k | 0 <= k < |tail| ensures tail[k].Placing? {
      assert tail[k] == log[i + 1 + k];
    }
    assert log[..i] + [log[i]] == log[..i + 1];
    assert log[..i + 1] + tail == log;
  }

  /** Logging a slide that cancels the last logged one plays back to the board after the slide. */
  lemma ReplayCancel(m: nat, n: nat, o: seq<int>, log: seq<Entry>, i: nat, g: seq<int>, b: nat, p: nat)
    requires m > 0 && Replay(m, n, o, log) == Some(g)
    requires Distinct(g) && b < |g| && g[b] == 0 && p < |g|
    requires LastSlide(log) == Some(i) && log[i] == Slide(g[p])
    ensures Replay(m, n, o, log[..i] + log[i + 1..]) == Some(Swap(g, b, p))
  {
    var before, e, tail := log[..i], log[i], log[i + 1..];
    SplitAtLastSlide(log, i);
    ReplayTrailing(m, n, o, before + [e], tail);
    ReplayLast(m, n, o, before, e);
    var g1 := Replay(m, n, o, before).value;
    assert Apply(m, n, g1, e) == Some(g);
    ReplayTrailing(m, n, o, before, tail);
    SlideBack(m, n, g1, g[p], g, b, p);
  }

  /**
   * Compaction does not change what the log means: if the log plays back to the board `g`,
   * then after sliding the tile at `p` into the blank at `b` and recording it, the log plays
   * back to the new board.
   */
  lemma ReplayRecord(m: nat, n: nat, o: seq<int>, log: seq<Entry>, g: seq<int>, b: nat, p: nat)
    requires m > 0 && Replay(m, n, o, log) == Some(g)
    requires Distinct(g) && b < |g| && g[b] == 0 && p < |g| && Link(m, n, b, p)
    ensures Replay(m, n, o, Record(log, g[p])) == Some(Swap(g, b, p))
  {
    match LastSlide(log) {
      case None =>
        ReplaySlide(m, n, o, log, g, b, p);
      case Some(i) =>
        if log[i] == Slide(g[p]) {
          ReplayCancel(m, n, o, log, i, g, b, p);
        } else {
          ReplaySlide(m, n, o, log, g, b, p);
        }
    }
  }

  /** The log after recording each slide of the chain `ps`, starting from board `g` with the blank at `b`. */
  function Logged(log: seq<Entry>, g: seq<int>, b: int, ps: seq<int>): seq<Entry>
    requires 0 <= b < |g| && forall i :: 0 <= i < |ps| ==> 0 <= ps[i] < |g|
    decreases |ps|
  {
    if ps == [] then log
    else
      var k := |ps| - 1;
      assert forall i :: 0 <= i < k ==> ps[..k][i] == ps[i];
      Record(Logged(log, g, b, ps[..k]), Slid(g, b, ps[..k])[ps[k]])
  }

  /** Recording slides keeps every marker and keeps a compacted log compacted. */
  lemma {:induction false} LoggedMarkers(log: seq<Entry>, g: seq<int>, b: int, ps: seq<int>)
    requires 0 <= b < |g| && forall i :: 0 <= i < |ps| ==> 0 <= ps[i] < |g|
    ensures Markers(Logged(log, g, b, ps)) == Markers(log)
    ensures Compacted(log) ==> Compacted(Logged(log, g, b, ps))
    decreases |ps|
  {
    if ps != [] {
      var k := |ps| - 1;
      var front := ps[..k];
      assert forall i :: 0 <= i < k ==> front[i] == ps[i];
      LoggedMarkers(log, g, b, front);
      var x := Slid(g, b, front)[ps[k]];
      RecordEffect(Logged(log, g, b, front), x);
      if Compacted(log) {
        RecordCompacted(Logged(log, g, b, front), x);
      }
    }
  }

  /** One more slide next to the blank, recorded, plays back to the board one slide further on. */
  lemma LoggedStep(m: nat, n: nat, o: seq<int>, log: seq<Entry>, g: seq<int>, b: int, ps: seq<int>)
    requires m > 0 && |g| == m * n && 0 <= b < |g| && g[b] == 0 && Distinct(g) && ps != []
    requires forall i :: 0 <= i < |ps| ==> 0 <= ps[i] < |g|
    requires Link(m, n, End(b, ps[..|ps| - 1]), ps[|ps| - 1])
    requires Replay(m, n, o, Logged(log, g, b, ps[..|ps| - 1])) == Some(Slid(g, b, ps[..|ps| - 1]))
    ensures Replay(m, n, o, Logged(log, g, b, ps)) == Some(Slid(g, b, ps))
  {
    var k := |ps| - 1;
    var front := ps[..k];
    assert forall i :: 0 <= i < k ==> front[i] == ps[i];
    var g' := Slid(g, b, front);
    SlidFacts(g, b, front);
    ReplayRecord(m, n, o, Logged(log, g, b, front), g', End(b, front), ps[k]);
  }

  /** Recording a chain of slides plays back to the board the slides produce. */
  lemma {:induction false} LoggedReplay(m: nat, n: nat, o: seq<int>, log: seq<Entry>, g: seq<int>, b: int, ps: seq<int>)
    requires m > 0 && |g| == m * n && 0 <= b < |g| && g[b] == 0 && Chain(m, n, b, ps)
    requires Replay(m, n, o, log) == Some(g) && Distinct(g)
    ensures forall i :: 0 <= i < |ps| ==> 0 <= ps[i] < |g|
    ensures Replay(m, n, o, Logged(log, g, b, ps)) == Some(Slid(g, b, ps))
    decreases |ps|
  {
    ChainOnBoard(m, n, b, ps);
    if ps != [] {
      var k := |ps| - 1;
      assert ps[..k + 1] == ps;
      ChainPrefix(m, n, b, ps, k);
      LoggedReplay(m, n, o, log, g, b, ps[..k]);
      LoggedStep(m, n, o, log, g, b, ps);
    }
  }
}
