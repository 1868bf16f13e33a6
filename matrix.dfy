/**
 * Level-crossing and range-pair counts derived from the rainflow matrix
 * (`RFC_lc_from_matrix`, `RFC_rp_from_matrix`): the sums the source
 * forms, the sums that agree with what `RFC_cycle_process` counts live,
 * and the proof that the latter stay in step with the matrix.
 */
module RfcMatrix {
  import opened RfcTypes
  import opened RfcSession

  /** A matrix of `n` by `n` counters, row-major, rows "from" and columns "to". */
  predicate Square(m: seq<nat>, n: nat)
  {
    |m| == n * n
  }

  /** Two cells of a square matrix are the same cell only for the same row and column. */
  lemma CellUnique(n: nat, a: nat, b: nat, c: nat, d: nat)
    requires a < n && b < n && c < n && d < n
    requires n * a + b == n * c + d
    ensures a == c && b == d
  {
    if a < c {
      MulMonotone(a + 1, c, n);
      assert false;
    } else if c < a {
      MulMonotone(c + 1, a, n);
      assert false;
    }
  }

  /** `m` after a cycle from class `a` to class `b` was counted `inc` more times. */
  function Bump(m: seq<nat>, n: nat, a: nat, b: nat, inc: nat): (r: seq<nat>)
    requires Square(m, n) && a < n && b < n
    ensures Square(r, n) && r[Cell(n, a, b)] == m[Cell(n, a, b)] + inc
  {
    m[Cell(n, a, b) := m[Cell(n, a, b)] + inc]
  }

  /** Bumping one cell leaves every other cell as it was. */
  lemma BumpCell(m: seq<nat>, n: nat, a: nat, b: nat, inc: nat, k: nat, j: nat)
    requires Square(m, n) && a < n && b < n && k < n && j < n
    ensures Bump(m, n, a, b, inc)[Cell(n, k, j)] == m[Cell(n, k, j)] + (if k == a && j == b then inc else 0)
  {
    if Cell(n, k, j) == Cell(n, a, b) {
      CellUnique(n, k, j, a, b);
    }
  }

  // ---------------------------------------------------------------------
  // Level crossings
  // ---------------------------------------------------------------------

  /** Cycles between classes `k` and `j` that level crossing counts: rising k to j, falling j to k. */
  function LcTerm(m: seq<nat>, n: nat, up: bool, dn: bool, k: nat, j: nat): nat
    requires Square(m, n) && k < n && j < n
  {
    (if up then m[Cell(n, k, j)] else 0) + (if dn then m[Cell(n, j, k)] else 0)
  }

  /** The sum of `LcTerm(k, j)` over `k` in `[0, kHi)`. */
  function RowSum(m: seq<nat>, n: nat, up: bool, dn: bool, j: nat, kHi: nat): nat
    requires Square(m, n) && j < n && kHi <= n
  {
    if kHi == 0 then 0 else RowSum(m, n, up, dn, j, kHi - 1) + LcTerm(m, n, up, dn, kHi - 1, j)
  }

  /** The sum of `LcTerm(k, j)` over `j` in `[jLo, jHi)` and `k` in `[0, kHi)`, in the order the source loops. */
  function RectSum(m: seq<nat>, n: nat, up: bool, dn: bool, jLo: nat, jHi: nat, kHi: nat): nat
    requires Square(m, n) && jHi <= n && kHi <= n
  {
    if jHi <= jLo then 0 else RectSum(m, n, up, dn, jLo, jHi - 1, kHi) + RowSum(m, n, up, dn, jHi - 1, kHi)
  }

  /**
   * The count `RFC_lc_from_matrix` stores for level `i`: cycles that start
   * below class `i` and end in class `i` or above (rising), or the reverse
   * (falling). It is the live count of level `i - 1`, and 0 for level 0:
   * the sums as written are the live counters shifted up by one level.
   */
  function LcAsWritten(m: seq<nat>, n: nat, up: bool, dn: bool, i: nat): (r: nat)
    requires Square(m, n) && i < n
    ensures i == 0 ==> r == 0
    ensures i > 0 ==> r == LcCorrected(m, n, up, dn, i - 1)
  {
    RectSumEmptyRows(m, n, up, dn, 0, n);
    RectSum(m, n, up, dn, i, n, i)
  }

  /**
   * The count the live aggregator keeps for level `i` (the upper bound of
   * class `i`): cycles that start in class `i` or below and end above it,
   * or the reverse.
   */
  function LcCorrected(m: seq<nat>, n: nat, up: bool, dn: bool, i: nat): nat
    requires Square(m, n) && i < n
  {
    RectSum(m, n, up, dn, i + 1, n, i + 1)
  }

  /** Counting one more cycle changes a row sum exactly where that cycle's cell lies in the row. */
  lemma {:induction false} RowSumBump(m: seq<nat>, n: nat, up: bool, dn: bool, j: nat, kHi: nat,
                                      a: nat, b: nat, inc: nat)
    requires Square(m, n) && j < n && kHi <= n && a < n && b < n
    ensures RowSum(Bump(m, n, a, b, inc), n, up, dn, j, kHi)
         == RowSum(m, n, up, dn, j, kHi)
            + (if up && j == b && a < kHi then inc else 0)
            + (if dn && j == a && b < kHi then inc else 0)
  {
    if kHi > 0 {
      RowSumBump(m, n, up, dn, j, kHi - 1, a, b, inc);
      BumpCell(m, n, a, b, inc, kHi - 1, j);
      BumpCell(m, n, a, b, inc, j, kHi - 1);
    }
  }

  /** Counting one more cycle changes a block sum exactly when that cycle's cell lies in the block. */
  lemma {:induction false} RectSumBump(m: seq<nat>, n: nat, up: bool, dn: bool, jLo: nat, jHi: nat, kHi: nat,
                                       a: nat, b: nat, inc: nat)
    requires Square(m, n) && jHi <= n && kHi <= n && a < n && b < n
    ensures RectSum(Bump(m, n, a, b, inc), n, up, dn, jLo, jHi, kHi)
         == RectSum(m, n, up, dn, jLo, jHi, kHi)
            + (if up && jLo <= b < jHi && a < kHi then inc else 0)
            + (if dn && jLo <= a < jHi && b < kHi then inc else 0)
  {
    if jLo < jHi {
      RectSumBump(m, n, up, dn, jLo, jHi - 1, kHi, a, b, inc);
      RowSumBump(m, n, up, dn, jHi - 1, kHi, a, b, inc);
    }
  }

  /** A matrix of zeros gives zero block sums. */
  lemma {:induction false} RectSumZero(m: seq<nat>, n: nat, up: bool, dn: bool, jLo: nat, jHi: nat, kHi: nat)
    requires Square(m, n) && jHi <= n && kHi <= n
    requires forall c :: 0 <= c < |m| ==> m[c] == 0
    ensures RectSum(m, n, up, dn, jLo, jHi, kHi) == 0
  {
    if jLo < jHi {
      RectSumZero(m, n, up, dn, jLo, jHi - 1, kHi);
      RowSumZero(m, n, up, dn, jHi - 1, kHi);
    }
  }

  lemma {:induction false} RowSumZero(m: seq<nat>, n: nat, up: bool, dn: bool, j: nat, kHi: nat)
    requires Square(m, n) && j < n && kHi <= n
    requires forall c :: 0 <= c < |m| ==> m[c] == 0
    ensures RowSum(m, n, up, dn, j, kHi) == 0
  {
    if kHi > 0 {
      RowSumZero(m, n, up, dn, j, kHi - 1);
    }
  }

  /** The level-crossing counters agree with the matrix, level by level. */
  predicate LcTracks(s: Session)
  {
    && Square(s.matrix, s.count) && |s.lc| == s.count
    && forall i :: 0 <= i < s.count ==>
         s.lc[i] == LcCorrected(s.matrix, s.count, s.flags.countLcUp, s.flags.countLcDn, i)
  }

  /**
   * With the matrix counted, every cycle the aggregator counts moves the
   * level-crossing counters exactly as it moves the corrected sums over
   * the matrix: the two stay in step.
   */
  lemma ProcessKeepsLc(s: Session, from: Tuple, to: Tuple)
    requires ProcessFits(s, from, to) && LcTracks(s) && s.flags.countMatrix
    ensures LcTracks(Process(s, from, to))
  {
    var r := Process(s, from, to);
    ProcessCells(s, from, to);
    var cf, ct := ClassOf(s, from.value), ClassOf(s, to.value);
    var up, dn := s.flags.countLcUp, s.flags.countLcDn;
    if !Skipped(s, from, to) && cf != ct {
      assert r.matrix == Bump(s.matrix, s.count, cf, ct, s.currInc);
      forall i | 0 <= i < s.count
        ensures r.lc[i] == LcCorrected(r.matrix, s.count, up, dn, i)
      {
        RectSumBump(s.matrix, s.count, up, dn, i + 1, s.count, i + 1, cf, ct, s.currInc);
      }
    }
  }

  // ---------------------------------------------------------------------
  // Range pairs
  // ---------------------------------------------------------------------

  /** The sum over `j` in `[i, jHi)` of the cells (i, j) and (j, i). */
  function RpRow(m: seq<nat>, n: nat, i: nat, jHi: nat): nat
    requires Square(m, n) && i < n && jHi <= n
  {
    if jHi <= i then 0 else RpRow(m, n, i, jHi - 1) + m[Cell(n, i, jHi - 1)] + m[Cell(n, jHi - 1, i)]
  }

  /**
   * The count `RFC_rp_from_matrix` stores for index `i`: cycles with one
   * end in class `i` and the other in class `i` or above, the diagonal
   * cell twice; 0 for index 0.
   */
  function RpAsWritten(m: seq<nat>, n: nat, i: nat): (r: nat)
    requires Square(m, n) && i < n
    ensures i == 0 ==> r == 0
  {
    if i == 0 then 0 else RpRow(m, n, i, n)
  }

  /** Counting one more cycle changes a row of `RpRow` where the cycle's cell is (i, j) or (j, i) with `j` in `[i, jHi)`. */
  lemma {:induction false} RpRowBump(m: seq<nat>, n: nat, i: nat, jHi: nat, a: nat, b: nat, inc: nat)
    requires Square(m, n) && i < n && jHi <= n && a < n && b < n
    ensures RpRow(Bump(m, n, a, b, inc), n, i, jHi)
         == RpRow(m, n, i, jHi)
            + (if a == i && i <= b < jHi then inc else 0)
            + (if b == i && i <= a < jHi then inc else 0)
  {
    if jHi > i {
      RpRowBump(m, n, i, jHi - 1, a, b, inc);
      BumpCell(m, n, a, b, inc, i, jHi - 1);
      BumpCell(m, n, a, b, inc, jHi - 1, i);
    }
  }

  /**
   * The rebuild as written files a cycle between classes `a` and `b` under
   * the lower class `min(a, b)` (twice when `a == b`), not under its range
   * `|a - b|` as the live counter does (`DiagSumBump`).
   */
  lemma RpAsWrittenBump(m: seq<nat>, n: nat, i: nat, a: nat, b: nat, inc: nat)
    requires Square(m, n) && 0 < i < n && a < n && b < n
    ensures RpAsWritten(Bump(m, n, a, b, inc), n, i)
         == RpAsWritten(m, n, i)
            + (if a == i && i <= b then inc else 0)
            + (if b == i && i <= a then inc else 0)
  {
    RpRowBump(m, n, i, n, a, b, inc);
  }

  /** The sum over `i` in `[0, iHi)` of the cells (i, i + d) and (i + d, i). */
  function DiagSum(m: seq<nat>, n: nat, d: nat, iHi: nat): nat
    requires Square(m, n) && iHi + d <= n
  {
    if iHi == 0 then 0 else DiagSum(m, n, d, iHi - 1) + m[Cell(n, iHi - 1, iHi - 1 + d)] + m[Cell(n, iHi - 1 + d, iHi - 1)]
  }

  /** The count the live aggregator keeps for range `d`: cycles whose classes are `d` apart, `d > 0`. */
  function RpCorrected(m: seq<nat>, n: nat, d: nat): nat
    requires Square(m, n) && d < n
  {
    if d == 0 then 0 else DiagSum(m, n, d, n - d)
  }

  lemma {:induction false} DiagSumBump(m: seq<nat>, n: nat, d: nat, iHi: nat, a: nat, b: nat, inc: nat)
    requires Square(m, n) && iHi + d <= n && a < n && b < n && d > 0
    ensures DiagSum(Bump(m, n, a, b, inc), n, d, iHi)
         == DiagSum(m, n, d, iHi)
            + (if b == a + d && a < iHi then inc else 0)
            + (if a == b + d && b < iHi then inc else 0)
  {
    if iHi > 0 {
      DiagSumBump(m, n, d, iHi - 1, a, b, inc);
      BumpCell(m, n, a, b, inc, iHi - 1, iHi - 1 + d);
      BumpCell(m, n, a, b, inc, iHi - 1 + d, iHi - 1);
    }
  }

  lemma {:induction false} DiagSumZero(m: seq<nat>, n: nat, d: nat, iHi: nat)
    requires Square(m, n) && iHi + d <= n
    requires forall c :: 0 <= c < |m| ==> m[c] == 0
    ensures DiagSum(m, n, d, iHi) == 0
  {
    if iHi > 0 {
      DiagSumZero(m, n, d, iHi - 1);
    }
  }

  /** The range-pair counters agree with the matrix, range by range. */
  predicate RpTracks(s: Session)
  {
    && Square(s.matrix, s.count) && |s.rp| == s.count
    && forall d :: 0 <= d < s.count ==> s.rp[d] == RpCorrected(s.matrix, s.count, d)
  }

  /**
   * With matrix and range pairs both counted, every cycle the aggregator
   * counts moves the range-pair counters as it moves the corrected
   * diagonal sums: the two stay in step.
   */
  lemma ProcessKeepsRp(s: Session, from: Tuple, to: Tuple)
    requires ProcessFits(s, from, to) && RpTracks(s) && s.flags.countMatrix && s.flags.countRp
    ensures RpTracks(Process(s, from, to))
  {
    var r := Process(s, from, to);
    ProcessCells(s, from, to);
    var cf, ct := ClassOf(s, from.value), ClassOf(s, to.value);
    if !Skipped(s, from, to) && cf != ct {
      assert r.matrix == Bump(s.matrix, s.count, cf, ct, s.currInc);
      forall d | 0 < d < s.count
        ensures r.rp[d] == RpCorrected(r.matrix, s.count, d)
      {
        DiagSumBump(s.matrix, s.count, d, s.count - d, cf, ct, s.currInc);
      }
    }
  }

  /** Zeroed counters, as `RFC_init` leaves them, agree with the zeroed matrix. */
  lemma ZerosTrack(s: Session)
    requires Square(s.matrix, s.count) && |s.lc| == s.count && |s.rp| == s.count
    requires forall c :: 0 <= c < |s.matrix| ==> s.matrix[c] == 0
    requires forall i :: 0 <= i < s.count ==> s.lc[i] == 0 && s.rp[i] == 0
    ensures LcTracks(s) && RpTracks(s)
  {
    forall i | 0 <= i < s.count
      ensures s.lc[i] == LcCorrected(s.matrix, s.count, s.flags.countLcUp, s.flags.countLcDn, i)
      ensures s.rp[i] == RpCorrected(s.matrix, s.count, i)
    {
      RectSumZero(s.matrix, s.count, s.flags.countLcUp, s.flags.countLcDn, i + 1, s.count, i + 1);
      if i > 0 {
        DiagSumZero(s.matrix, s.count, i, s.count - i);
      }
    }
  }

  /**
   * One rising cycle from class 0 to class 1, counted as a full cycle
   * (increment 2), puts 2 into cell (0, 1), level 0 and range 1. The
   * corrected sums give those live counters back from the matrix, while
   * the sums as written put the cycle at level 1 and drop it from range 1.
   */
  lemma AsWrittenMisplacesOneCycle(s: Session)
    requires s.count == 2 && s.width == 10 && s.offset == 0 && s.flags == CountAll
    requires s.currInc == 2 && s.fullInc == 2 && Sized(s)
    requires s.matrix == [0, 0, 0, 0] && s.lc == [0, 0] && s.rp == [0, 0]
    ensures ProcessFits(s, Tuple(5, 0, 1), Tuple(15, 1, 2))
    ensures var r := Process(s, Tuple(5, 0, 1), Tuple(15, 1, 2));
            && r.matrix == [0, 2, 0, 0] && r.lc == [2, 0] && r.rp == [0, 2]
            && LcCorrected(r.matrix, 2, true, true, 0) == 2 && LcCorrected(r.matrix, 2, true, true, 1) == 0
            && RpCorrected(r.matrix, 2, 1) == 2
            && LcAsWritten(r.matrix, 2, true, true, 0) == 0 && LcAsWritten(r.matrix, 2, true, true, 1) == 2
            && RpAsWritten(r.matrix, 2, 1) == 0
  {
    var r := Process(s, Tuple(5, 0, 1), Tuple(15, 1, 2));
    assert ClassOf(s, 5) == 0 && ClassOf(s, 15) == 1;
    assert r.lc == AddRange([0, 0], 0, 1, 2);
    assert r.lc == [2, 0];
    var m := r.matrix;
    assert RowSum(m, 2, true, true, 1, 1) == RowSum(m, 2, true, true, 1, 0) + LcTerm(m, 2, true, true, 0, 1) == 2;
    assert RectSum(m, 2, true, true, 1, 1, 1) == 0;
    assert RectSum(m, 2, true, true, 1, 2, 1) == 2;
    assert RpRow(m, 2, 1, 1) == 0;
    assert DiagSum(m, 2, 1, 0) == 0;
  }

  /** Rows summed over no columns give 0. */
  lemma {:induction false} RectSumEmptyRows(m: seq<nat>, n: nat, up: bool, dn: bool, jLo: nat, jHi: nat)
    requires Square(m, n) && jHi <= n
    ensures RectSum(m, n, up, dn, jLo, jHi, 0) == 0
  {
    if jLo < jHi {
      RectSumEmptyRows(m, n, up, dn, jLo, jHi - 1);
    }
  }

  // ---------------------------------------------------------------------
  // Buffer slots
  // ---------------------------------------------------------------------

  /**
   * The slot `RFC_lc_from_matrix` writes level `i` to, for a buffer of
   * `maxcnt` counters: every level from `maxcnt` on goes to slot `maxcnt`,
   * one past the buffer.
   */
  function LcSlotAsWritten(i: nat, maxcnt: nat): (r: nat)
    ensures r <= maxcnt
    ensures r == maxcnt <==> i >= maxcnt
    ensures i < maxcnt ==> r == i
  {
    if i > maxcnt then maxcnt else i
  }

  /** The clamped slot: levels past the buffer go to its last counter. */
  function LcSlot(i: nat, maxcnt: nat): (r: nat)
    requires maxcnt > 0
    ensures r < maxcnt
    ensures i < maxcnt ==> r == i
    ensures i >= maxcnt ==> r == maxcnt - 1
  {
    if i >= maxcnt then maxcnt - 1 else i
  }

  /**
   * The buffer after the levels `[0, hi)` were written, each corrected
   * count to its clamped slot; an empty buffer is left alone.
   */
  function LcFill(b: seq<nat>, m: seq<nat>, n: nat, up: bool, dn: bool, hi: nat): (r: seq<nat>)
    requires Square(m, n) && hi <= n
    ensures |r| == |b|
  {
    if hi == 0 || |b| == 0 then b
    else LcFill(b, m, n, up, dn, hi - 1)[LcSlot(hi - 1, |b|) := LcCorrected(m, n, up, dn, hi - 1)]
  }

  /**
   * A buffer with room for every level receives the corrected count of
   * each level and keeps the rest; a shorter one receives the levels that
   * fit, and its last counter holds the highest level.
   */
  lemma {:induction false} LcFillLevels(b: seq<nat>, m: seq<nat>, n: nat, up: bool, dn: bool, hi: nat)
    requires Square(m, n) && hi <= n
    ensures var r := LcFill(b, m, n, up, dn, hi);
            hi <= |b| ==> (forall i :: 0 <= i < hi ==> r[i] == LcCorrected(m, n, up, dn, i)) && r[hi..] == b[hi..]
    ensures var r := LcFill(b, m, n, up, dn, hi);
            0 < |b| < hi ==> (forall i :: 0 <= i < |b| - 1 ==> r[i] == LcCorrected(m, n, up, dn, i))
                             && r[|b| - 1] == LcCorrected(m, n, up, dn, hi - 1)
  {
    if hi > 0 && |b| > 0 {
      LcFillLevels(b, m, n, up, dn, hi - 1);
      var p := LcFill(b, m, n, up, dn, hi - 1);
      var r := LcFill(b, m, n, up, dn, hi);
      assert r == p[LcSlot(hi - 1, |b|) := LcCorrected(m, n, up, dn, hi - 1)];
      if hi <= |b| {
        assert r[hi..] == p[hi..];
      }
    }
  }

  /**
   * While the live level-crossing counters track the matrix, the corrected
   * `RFC_lc_from_matrix` into a buffer of one counter per class gives back
   * exactly the live counters.
   */
  lemma LcFillIsLive(s: Session, b: seq<nat>)
    requires LcTracks(s) && |b| == s.count
    ensures LcFill(b, s.matrix, s.count, s.flags.countLcUp, s.flags.countLcDn, s.count) == s.lc
  {
    LcFillLevels(b, s.matrix, s.count, s.flags.countLcUp, s.flags.countLcDn, s.count);
  }
}
