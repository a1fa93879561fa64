/**
 * The two list helpers of the program, `chunk` and `flatten`, and the transposition
 * `flatten(zip(*chunk(s, w)))` they are used for: it turns a row-major board of width `w`
 * into the row-major board of its transpose.
 */
module Lists {
  import opened Wrappers

  /** Consecutive slices of length `k` (the last one may be shorter); a zero width gives none. */
  function Chunk<T>(s: seq<T>, k: nat): (r: seq<seq<T>>)
    ensures k == 0 ==> r == []
    ensures forall i :: 0 <= i < |r| ==> 0 < |r[i]| <= k
    decreases |s|
  {
    if k == 0 || |s| == 0 then []
    else if |s| <= k then [s]
    else [s[..k]] + Chunk(s[k..], k)
  }

  /** The concatenation of a list of lists. */
  function Flatten<T>(l: seq<seq<T>>): seq<T>
    decreases |l|
  {
    if l == [] then [] else l[0] + Flatten(l[1..])
  }

  /** Chunking loses nothing: flattening the chunks gives the list back, and only the last chunk is short. */
  lemma {:induction false} ChunkFlatten<T>(s: seq<T>, k: nat)
    requires k > 0
    ensures Flatten(Chunk(s, k)) == s
    ensures forall i :: 0 <= i < |Chunk(s, k)| - 1 ==> |Chunk(s, k)[i]| == k
    decreases |s|
  {
    if |s| > k {
      ChunkFlatten(s[k..], k);
      assert Chunk(s, k) == [s[..k]] + Chunk(s[k..], k);
      assert Flatten(Chunk(s, k)) == s[..k] + Flatten(Chunk(s[k..], k));
    } else if |s| > 0 {
      assert Flatten(Chunk(s, k)) == s + Flatten([]);
    }
  }

  /** The length of the shortest list of `l` (zero for no lists). */
  function MinLength<T>(l: seq<seq<T>>): (r: nat)
    ensures forall i :: 0 <= i < |l| ==> r <= |l[i]|
    ensures l != [] ==> exists i :: 0 <= i < |l| && r == |l[i]|
    decreases |l|
  {
    if l == [] then 0
    else if |l| == 1 then |l[0]|
    else
      var rest := MinLength(l[1..]);
      assert forall i :: 1 <= i < |l| ==> rest <= |l[i]| by {
        forall i | 1 <= i < |l| ensures rest <= |l[i]| { assert l[i] == l[1..][i - 1]; }
      }
      if |l[0]| <= rest then |l[0]| else rest
  }

  /** Python's `zip(*rows)`: the j-th result holds the j-th element of every row, up to the shortest row. */
  function Zip<T>(rows: seq<seq<T>>): (r: seq<seq<T>>)
    ensures rows == [] ==> r == []
    ensures rows != [] ==> |r| == MinLength(rows)
    ensures forall j :: 0 <= j < |r| ==> |r[j]| == |rows|
    ensures forall j, i :: 0 <= j < |r| && 0 <= i < |rows| ==> j < |rows[i]| && r[j][i] == rows[i][j]
  {
    if rows == [] then []
    else seq(MinLength(rows), j requires 0 <= j < MinLength(rows) =>
               seq(|rows|, i requires 0 <= i < |rows| => rows[i][j]))
  }

  /** The board of width `w` read column by column: `flatten(zip(*chunk(s, w)))`. */
  function Transpose<T>(s: seq<T>, w: nat): seq<T>
  {
    Flatten(Zip(Chunk(s, w)))
  }

  lemma MulAtLeast(x: int, w: int)
    requires w > 0 && x >= 1
    ensures w * x >= w
  {
    assert w * x == w * (x - 1) + w;
  }

  /** `i * w + j` names the cell in row `i`, column `j` of a board of width `w`. */
  lemma DivMod(i: int, j: int, w: int)
    requires 0 <= j < w
    ensures (i * w + j) / w == i && (i * w + j) % w == j
  {
    var k := i * w + j;
    var q, r := k / w, k % w;
    assert k == w * q + r;
    assert i * w == w * i;
    if q > i {
      assert w * (q - i) == w * q - w * i;
      MulAtLeast(q - i, w);
    } else if q < i {
      assert w * (i - q) == w * i - w * q;
      MulAtLeast(i - q, w);
    }
  }

  lemma MulMono(a: int, b: int, w: nat)
    requires a <= b
    ensures a * w <= b * w
  {
    if a < b && w > 0 {
      assert b * w - a * w == w * (b - a);
      MulAtLeast(b - a, w);
    }
  }

  /** The cell in row `i`, column `j` lies on a board of height `h` and width `w`. */
  lemma CellBound(i: nat, j: nat, w: nat, h: nat)
    requires i < h && j < w
    ensures 0 <= i * w && i * w + j < w * h
  {
    assert (i + 1) * w == i * w + w;
    MulMono(i + 1, h, w);
    assert h * w == w * h;
  }

  /** Row `i` of a board of height `h` is row `i - 1` of the board without its first row. */
  lemma RowShift(i: nat, w: nat, h: nat)
    requires 0 < i < h && w > 0
    ensures 0 <= (i - 1) * w && (i - 1) * w + w == i * w && i * w + w <= w * h
    ensures w * h == w * (h - 1) + w && w * (h - 1) >= w
  {
    assert (i - 1) * w + w == i * w;
    CellBound(i, w - 1, w, h);
    CellBound(i - 1, w - 1, w, h);
    assert w * h == w * (h - 1) + w;
    MulAtLeast(h - 1, w);
  }

  /** Row `i` of a board of width `w` is the `i`-th chunk. */
  lemma {:induction false} ChunkRow<T>(s: seq<T>, w: nat, h: nat, i: nat)
    requires w > 0 && |s| == w * h && i < h
    ensures |Chunk(s, w)| == h
    ensures 0 <= i * w && i * w + w <= |s| && Chunk(s, w)[i] == s[i * w .. i * w + w]
    decreases h
  {
    CellBound(i, w - 1, w, h);
    if h == 1 {
      assert |s| == w;
      assert Chunk(s, w) == [s];
      assert i * w == 0;
    } else {
      RowShift(1, w, h);
      var rest := s[w..];
      assert Chunk(s, w) == [s[..w]] + Chunk(rest, w);
      if i == 0 {
        ChunkRow(rest, w, h - 1, 0);
        assert i * w == 0;
      } else {
        ChunkRow(rest, w, h - 1, i - 1);
        RowShift(i, w, h);
        var a := (i - 1) * w;
        assert Chunk(s, w)[i] == rest[a .. a + w];
      }
    }
  }

  /** A board of height `h` and width `w` has `h` chunks, all of length `w`. */
  lemma {:induction false} ChunkWidths<T>(s: seq<T>, w: nat, h: nat)
    requires w > 0 && |s| == w * h
    ensures |Chunk(s, w)| == h
    ensures forall x :: 0 <= x < h ==> |Chunk(s, w)[x]| == w
    decreases h
  {
    if h == 1 {
      assert Chunk(s, w) == [s];
    } else if h > 1 {
      RowShift(1, w, h);
      ChunkWidths(s[w..], w, h - 1);
      assert Chunk(s, w) == [s[..w]] + Chunk(s[w..], w);
    }
  }

  /** Flattening lists of one common length `k` puts element `j` of list `i` at `i * k + j`. */
  lemma {:induction false} FlattenAt<T>(l: seq<seq<T>>, k: nat, i: nat, j: nat)
    requires forall x :: 0 <= x < |l| ==> |l[x]| == k
    requires i < |l| && j < k
    ensures |Flatten(l)| == k * |l|
    ensures 0 <= i * k && i * k + j < |Flatten(l)| && Flatten(l)[i * k + j] == l[i][j]
    decreases |l|
  {
    var rest := l[1..];
    FlattenLength(l, k);
    CellBound(i, j, k, |l|);
    assert Flatten(l) == l[0] + Flatten(rest);
    if i > 0 {
      FlattenAt(rest, k, i - 1, j);
      assert i * k + j == k + ((i - 1) * k + j);
      assert l[i] == rest[i - 1];
    }
  }

  lemma {:induction false} FlattenLength<T>(l: seq<seq<T>>, k: nat)
    requires forall x :: 0 <= x < |l| ==> |l[x]| == k
    ensures |Flatten(l)| == k * |l|
    decreases |l|
  {
    if l != [] {
      FlattenLength(l[1..], k);
      assert k * |l| == k + k * |l[1..]|;
    }
  }

  /** Transposition keeps the length of a full board. */
  lemma TransposeLength<T>(s: seq<T>, w: nat, h: nat)
    requires w > 0 && h > 0 && |s| == w * h
    ensures |Transpose(s, w)| == w * h
    ensures |Chunk(s, w)| == h
    ensures MinLength(Chunk(s, w)) == w
    ensures |Zip(Chunk(s, w))| == w
  {
    ChunkShape(s, w, h);
    ZipShape(Chunk(s, w), w, h);
    FlattenLength(Zip(Chunk(s, w)), h);
    Commute(h, w);
  }

  lemma Commute(a: int, b: int)
    ensures a * b == b * a
  {
  }

  /** A board of height `h` and width `w` chunks into `h` rows whose shortest is `w` long. */
  lemma ChunkShape<T>(s: seq<T>, w: nat, h: nat)
    requires w > 0 && h > 0 && |s| == w * h
    ensures |Chunk(s, w)| == h && MinLength(Chunk(s, w)) == w
  {
    ChunkWidths(s, w, h);
    var i :| 0 <= i < h && MinLength(Chunk(s, w)) == |Chunk(s, w)[i]|;
  }

  /** Zipping `h` rows whose shortest is `w` long gives `w` columns of `h` entries. */
  lemma ZipShape<T>(rows: seq<seq<T>>, w: nat, h: nat)
    requires |rows| == h > 0 && MinLength(rows) == w
    ensures |Zip(rows)| == w && forall j :: 0 <= j < w ==> |Zip(rows)[j]| == h
  {
  }

  /** The cell in row `i`, column `j` of a `w`-wide, `h`-high board is in row `j`, column `i` of its transpose. */
  lemma TransposeAt<T>(s: seq<T>, w: nat, h: nat, i: nat, j: nat)
    requires w > 0 && h > 0 && |s| == w * h
    requires i < h && j < w
    ensures |Transpose(s, w)| == w * h
    ensures 0 <= i * w && 0 <= j * h && i * w + j < w * h && j * h + i < w * h
    ensures Transpose(s, w)[j * h + i] == s[i * w + j]
  {
    TransposeLength(s, w, h);
    var c := Chunk(s, w);
    var z := Zip(c);
    ChunkRow(s, w, h, i);
    FlattenAt(z, h, j, i);
    CellBound(i, j, w, h);
    CellBound(j, i, h, w);
    assert z[j][i] == c[i][j];
  }

  /** Every index of a board of width `w` and height `h` is `i * w + j` for its row `i` and column `j`. */
  lemma Decompose(k: nat, w: nat, h: nat)
    requires w > 0 && k < w * h
    ensures k == (k / w) * w + k % w && 0 <= k % w < w && 0 <= k / w < h
  {
    assert k == w * (k / w) + k % w;
    if k / w >= h {
      assert h * w == w * h;
      MulMono(h, k / w, w);
    }
  }

  /** Transposing twice, the second time with the other dimension, gives the board back. */
  lemma TransposeTwice<T>(s: seq<T>, w: nat, h: nat)
    requires w > 0 && h > 0 && |s| == w * h
    ensures |Transpose(s, w)| == w * h
    ensures Transpose(Transpose(s, w), h) == s
  {
    var t := Transpose(s, w);
    TransposeLength(s, w, h);
    assert |t| == h * w;
    TransposeLength(t, h, w);
    var u := Transpose(t, h);
    forall k | 0 <= k < |s| ensures u[k] == s[k] {
      Decompose(k, w, h);
      var i, j := k / w, k % w;
      TransposeAt(s, w, h, i, j);
      TransposeAt(t, h, w, j, i);
    }
  }

  predicate Distinct<T(==)>(s: seq<T>)
  {
    forall a, b :: 0 <= a < b < |s| ==> s[a] != s[b]
  }

  /** Transposition moves the cells of a board around without losing or inventing a value. */
  lemma TransposeHas<T>(s: seq<T>, w: nat, h: nat)
    requires w > 0 && h > 0 && |s| == w * h
    ensures |Transpose(s, w)| == |s|
    ensures forall v :: v in Transpose(s, w) <==> v in s
  {
    var t := Transpose(s, w);
    TransposeLength(s, w, h);
    assert |t| == h * w;
    forall v | v in s ensures v in t {
      var k :| 0 <= k < |s| && s[k] == v;
      Decompose(k, w, h);
      TransposeAt(s, w, h, k / w, k % w);
    }
    forall v | v in t ensures v in s {
      var k :| 0 <= k < |t| && t[k] == v;
      Decompose(k, h, w);
      TransposeAt(s, w, h, k % h, k / h);
    }
  }

  /** Cell `k` of the transpose of a `w`-wide board comes from cell `(k % h) * w + k / h`. */
  lemma TransposeSource<T>(s: seq<T>, w: nat, h: nat, k: nat)
    requires w > 0 && h > 0 && |s| == w * h && k < w * h
    ensures |Transpose(s, w)| == w * h
    ensures 0 <= (k % h) * w + k / h < w * h
    ensures Transpose(s, w)[k] == s[(k % h) * w + k / h]
  {
    assert h * w == w * h;
    Decompose(k, h, w);
    TransposeAt(s, w, h, k % h, k / h);
  }

  /** Transposition does not repeat a value. */
  lemma TransposeDistinct<T>(s: seq<T>, w: nat, h: nat)
    requires w > 0 && h > 0 && |s| == w * h && Distinct(s)
    ensures Distinct(Transpose(s, w))
  {
    var t := Transpose(s, w);
    TransposeLength(s, w, h);
    forall a, b | 0 <= a < b < |t| ensures t[a] != t[b] {
      TransposeSource(s, w, h, a);
      TransposeSource(s, w, h, b);
      assert h * w == w * h;
      Decompose(a, h, w);
      Decompose(b, h, w);
      if (a % h) * w + a / h == (b % h) * w + b / h {
        DivMod(a % h, a / h, w);
        DivMod(b % h, b / h, w);
      }
    }
  }

  /** The bottom-right cell stays where it is. */
  lemma TransposeLast<T>(s: seq<T>, w: nat, h: nat)
    requires w > 0 && h > 0 && |s| == w * h
    ensures |Transpose(s, w)| == w * h
    ensures Transpose(s, w)[w * h - 1] == s[w * h - 1]
  {
    LastCell(w, h);
    TransposeCell(s, w, h, h - 1, w - 1, w * h - 1, w * h - 1);
  }

  /** `TransposeAt` with the two cell numbers named, so that callers need no products. */
  lemma TransposeCell<T>(s: seq<T>, w: nat, h: nat, i: nat, j: nat, a: int, b: int)
    requires w > 0 && h > 0 && |s| == w * h && i < h && j < w
    requires a == i * w + j && b == j * h + i
    ensures |Transpose(s, w)| == w * h && 0 <= a < w * h && 0 <= b < w * h
    ensures Transpose(s, w)[b] == s[a]
  {
    TransposeAt(s, w, h, i, j);
  }

  /** The bottom-right cell is cell `w * h - 1`, read by rows or by columns. */
  lemma LastCell(w: int, h: int)
    ensures (w - 1) * h + (h - 1) == w * h - 1 && (h - 1) * w + (w - 1) == w * h - 1
  {
    assert (w - 1) * h == w * h - h;
    assert (h - 1) * w == h * w - w;
    Commute(h, w);
  }

  /** Python's `list.index`: the first position holding `x`, or nothing when `x` is absent. */
  function IndexOf<T(==)>(s: seq<T>, x: T): (r: Option<nat>)
    ensures r.Some? ==> r.value < |s| && s[r.value] == x && forall k :: 0 <= k < r.value ==> s[k] != x
    ensures r.None? <==> x !in s
    decreases |s|
  {
    if s == [] then None
    else if s[0] == x then Some(0)
    else
      match IndexOf(s[1..], x)
      case None => None
      case Some(i) => Some(i + 1)
  }

  /** In a list without repeats, the value at `k` is found at `k`. */
  lemma DistinctIndex<T>(s: seq<T>, k: nat)
    requires Distinct(s) && k < |s|
    ensures IndexOf(s, s[k]) == Some(k)
  {
    var r := IndexOf(s, s[k]);
    assert r.Some?;
  }
}
