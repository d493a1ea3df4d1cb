/**
 * The on-disk form of the grid: the save loop writes every cell in index order
 * and follows cell `i` with a newline when `i % w == 0 && i > 1`; the size
 * inference reads the width off the first newline.
 */
module FileFormat {
  import opened TextGrid
  import opened Wrappers

  /** The save loop's test for writing a newline after cell `i` of a grid `w` wide. */
  predicate IsBreak(i: nat, w: nat) {
    w != 0 && i % w == 0 && i > 1
  }

  /** How many of the cell indices `i`, ..., `i + n - 1` are followed by a newline. */
  function CountBreaks(i: nat, n: nat, w: nat): nat
    decreases n
  {
    if n == 0 then 0 else (if IsBreak(i, w) then 1 else 0) + CountBreaks(i + 1, n - 1, w)
  }

  /** The bytes the save loop writes for cells `g`, the first of which has index `i`. */
  function SaveFrom(g: seq<byte>, i: nat, w: nat): (r: seq<byte>)
    ensures |r| == |g| + CountBreaks(i, |g|, w)
    decreases |g|
  {
    if g == [] then []
    else [g[0]] + (if IsBreak(i, w) then [NEWLINE] else []) + SaveFrom(g[1..], i + 1, w)
  }

  /** Saving cells `i` onward writes cell `i`, its newline if any, then cells `i + 1` onward. */
  lemma SaveFromStep(g: seq<byte>, i: nat, w: nat)
    requires i < |g|
    ensures SaveFrom(g[i..], i, w) ==
      [g[i]] + (if IsBreak(i, w) then [NEWLINE] else []) + SaveFrom(g[i + 1..], i + 1, w)
  {
  }

  /** The file written for grid `g` of width `w`. */
  function Serialized(g: seq<byte>, w: nat): seq<byte> {
    SaveFrom(g, 0, w)
  }

  /**
   * The reference inverse of `SaveFrom`: takes the cells back out of the
   * bytes, dropping the newline written after each break index; fails when
   * that newline is missing.
   */
  function ParseFrom(b: seq<byte>, i: nat, w: nat): Option<seq<byte>>
    decreases |b|
  {
    if b == [] then Some([])
    else if IsBreak(i, w) then
      if |b| >= 2 && b[1] == NEWLINE then
        match ParseFrom(b[2..], i + 1, w)
        case Some(rest) => Some([b[0]] + rest)
        case None => None
      else None
    else
      match ParseFrom(b[1..], i + 1, w)
      case Some(rest) => Some([b[0]] + rest)
      case None => None
  }

  function Parse(b: seq<byte>, w: nat): Option<seq<byte>> {
    ParseFrom(b, 0, w)
  }

  /** Removing the inserted newlines from a saved grid gives the grid back. */
  lemma {:induction false} ParseSaveFrom(g: seq<byte>, i: nat, w: nat)
    ensures ParseFrom(SaveFrom(g, i, w), i, w) == Some(g)
    decreases |g|
  {
    if g != [] {
      ParseSaveFrom(g[1..], i + 1, w);
      var b := SaveFrom(g, i, w);
      if IsBreak(i, w) {
        assert b[2..] == SaveFrom(g[1..], i + 1, w);
      } else {
        assert b[1..] == SaveFrom(g[1..], i + 1, w);
      }
      assert [g[0]] + g[1..] == g;
    }
  }

  /** Any bytes that parse to `g` are exactly what saving `g` writes. */
  lemma {:induction false} SaveFromParsed(b: seq<byte>, i: nat, w: nat, g: seq<byte>)
    requires ParseFrom(b, i, w) == Some(g)
    ensures SaveFrom(g, i, w) == b
    decreases |b|
  {
    if b != [] {
      if IsBreak(i, w) {
        var rest := ParseFrom(b[2..], i + 1, w).value;
        assert g == [b[0]] + rest;
        SaveFromParsed(b[2..], i + 1, w, rest);
        assert g[1..] == rest;
        assert b == [b[0]] + [NEWLINE] + b[2..];
      } else {
        var rest := ParseFrom(b[1..], i + 1, w).value;
        assert g == [b[0]] + rest;
        SaveFromParsed(b[1..], i + 1, w, rest);
        assert g[1..] == rest;
        assert b == [b[0]] + b[1..];
      }
    }
  }

  /** A file is the save of a grid exactly when it parses back to that grid. */
  lemma SaveParseInverse(g: seq<byte>, b: seq<byte>, w: nat)
    ensures Serialized(g, w) == b <==> Parse(b, w) == Some(g)
  {
    ParseSaveFrom(g, 0, w);
    if Parse(b, w) == Some(g) {
      SaveFromParsed(b, 0, w, g);
    }
  }

  /**
   * Where each cell lands in the saved bytes: cell `k` sits after the `k`
   * cells and the newlines written before it, and a break index is followed
   * by a newline.
   */
  lemma {:induction false} SavedCellAt(g: seq<byte>, i: nat, w: nat, k: nat)
    requires k < |g|
    ensures k + CountBreaks(i, k, w) < |SaveFrom(g, i, w)|
    ensures SaveFrom(g, i, w)[k + CountBreaks(i, k, w)] == g[k]
    ensures IsBreak(i + k, w) ==>
      k + CountBreaks(i, k, w) + 1 < |SaveFrom(g, i, w)| &&
      SaveFrom(g, i, w)[k + CountBreaks(i, k, w) + 1] == NEWLINE
    decreases k
  {
    CountBreaksSplit(i, k, |g| - k, w);
    if k > 0 {
      SavedCellAt(g[1..], i + 1, w, k - 1);
      var head := [g[0]] + (if IsBreak(i, w) then [NEWLINE] else []);
      assert SaveFrom(g, i, w) == head + SaveFrom(g[1..], i + 1, w);
      assert CountBreaks(i, k, w) == |head| - 1 + CountBreaks(i + 1, k - 1, w);
    }
  }

  lemma {:induction false} CountBreaksSplit(i: nat, m: nat, n: nat, w: nat)
    ensures CountBreaks(i, m + n, w) == CountBreaks(i, m, w) + CountBreaks(i + m, n, w)
    decreases m
  {
    if m > 0 {
      CountBreaksSplit(i + 1, m - 1, n, w);
    }
  }

  /**
   * The offset of the first newline at or after `i` (`i` at least 1), or 0
   * when no such newline follows.
   */
  function NewlineFrom(file: seq<byte>, i: nat): (k: nat)
    requires i >= 1
    ensures k == 0 || (i <= k < |file| && file[k] == NEWLINE)
    ensures k == 0 ==> forall j :: i <= j < |file| ==> file[j] != NEWLINE
    ensures k != 0 ==> forall j :: i <= j < k ==> file[j] != NEWLINE
    decreases |file| - i
  {
    if i >= |file| then 0
    else if file[i] == NEWLINE then i
    else NewlineFrom(file, i + 1)
  }

  /**
   * The width the size inference reads off a file: the offset of the first
   * newline at a positive offset, or 0 when there is none (a newline at
   * offset 0 does not count).
   */
  function FirstLineWidth(file: seq<byte>): (w: nat)
    ensures w == 0 <==> forall j :: 0 < j < |file| ==> file[j] != NEWLINE
    ensures w != 0 ==> w < |file| && file[w] == NEWLINE
    ensures w != 0 ==> forall j :: 0 < j < w ==> file[j] != NEWLINE
  {
    NewlineFrom(file, 1)
  }
  /** Column `d` of a row is a multiple of the width only at column 0. */
  lemma RowOffsetMod(q: nat, w: nat, d: nat)
    requires w >= 1 && d < w
    ensures (q * w + d) % w == d
  {
    var n := q * w + d;
    assert n == q * w + d;
    assert n / w == q && n % w == d by {
      DivModUnique(n, w, q, d);
    }
  }

  lemma DivModUnique(n: nat, w: nat, q: nat, d: nat)
    requires w >= 1 && d < w && n == q * w + d
    ensures n / w == q && n % w == d
  {
    var q', d' := n / w, n % w;
    assert n == q' * w + d';
    if q' < q {
      MulMono(q' + 1, q, w);
    } else if q < q' {
      MulMono(q + 1, q', w);
    }
  }

  /** Past its first cell, no cell of a row after the first is followed by a newline. */
  lemma {:induction false} RowTailBreaks(q: nat, w: nat, d: nat)
    requires w >= 2 && q >= 1 && d < w
    ensures CountBreaks(q * w + w - d, d, w) == 0
    decreases d
  {
    if d > 0 {
      RowTailBreaks(q, w, d - 1);
      RowOffsetMod(q, w, w - d);
    }
  }

  /**
   * In each row after the first, exactly one cell is followed by a newline:
   * the row's first cell.
   */
  lemma RowBreaks(q: nat, w: nat)
    requires w >= 2 && q >= 1
    ensures IsBreak(q * w, w) && CountBreaks(q * w + 1, w - 1, w) == 0
    ensures CountBreaks(q * w, w, w) == 1
  {
    RowTailBreaks(q, w, w - 1);
    RowOffsetMod(q, w, 0);
    MulMono(1, q, w);
    assert IsBreak(q * w, w);
    assert q * w + w - (w - 1) == q * w + 1;
  }

  /**
   * Saving a grid of width at least 2 and `h` rows inserts `h - 1` newlines
   * (besides any newline bytes the cells themselves hold), not one per row:
   * an inserted newline follows the first cell of each row after the first,
   * and none follows the last row.
   */
  lemma {:induction false} SavedNewlineCount(w: nat, h: nat)
    requires w >= 2 && h >= 1
    ensures CountBreaks(0, w * h, w) == h - 1
    decreases h
  {
    if h == 1 {
      RowZeroBreaks(w, w);
    } else {
      SavedNewlineCount(w, h - 1);
      assert w * h == w * (h - 1) + w;
      CountBreaksSplit(0, w * (h - 1), w, w);
      RowBreaks(h - 1, w);
      assert (h - 1) * w == w * (h - 1);
    }
  }

  /** No cell of the first row is followed by a newline. */
  lemma {:induction false} RowZeroBreaks(w: nat, d: nat)
    requires w >= 2 && d <= w
    ensures CountBreaks(w - d, d, w) == 0
    decreases d
  {
    if d > 0 {
      RowZeroBreaks(w, d - 1);
      assert (w - d) % w == w - d;
    }
  }

  /** The file saved from a `w` by `h` grid (`w` at least 2) is `w * h + h - 1` bytes long. */
  lemma SavedLength(g: seq<byte>, w: nat, h: nat)
    requires w >= 2 && h >= 1 && |g| == w * h
    ensures |Serialized(g, w)| == w * h + h - 1
  {
    SavedNewlineCount(w, h);
  }

  /** On a grid 1 cell wide, every cell from index 2 on is followed by a newline. */
  lemma {:induction false} BreaksWidthOne(i: nat, n: nat)
    requires i >= 2
    ensures CountBreaks(i, n, 1) == n
    decreases n
  {
    if n > 0 {
      BreaksWidthOne(i + 1, n - 1);
    }
  }

  /**
   * Saving a grid 1 cell wide with `h` rows (at least 2) inserts `h - 2`
   * newlines, besides any newline bytes the cells hold.
   */
  lemma SavedNewlineCountWidthOne(h: nat)
    requires h >= 2
    ensures CountBreaks(0, h, 1) == h - 2
  {
    CountBreaksSplit(0, 2, h - 2, 1);
    BreaksWidthOne(2, h - 2);
  }
}
