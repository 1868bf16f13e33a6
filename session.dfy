/**
 * The counting session as a value, and the per-cycle aggregator.
 *
 * A `Session` holds every field of the C context that the core reads or
 * writes. The residue and the HCM stack are held as the WHOLE backing
 * arrays (`res`, `stack`), stale slots included, because the source reads
 * and moves slots beyond the confirmed tail (the interim point, and after
 * finalisation a slot past it).
 */
module RfcSession {
  import opened RfcTypes

  /** A closed cycle, from one turning point to the next. */
  datatype Cycle = Cycle(from: Tuple, to: Tuple)

  /** `class_info` and the configuration `RFC_init` installs. */
  datatype Config = Config(count: nat, width: int, offset: int, hysteresis: int,
                           flags: Flags, counting: CountingMethod, damageOf: (nat, nat) -> real,
                           fullInc: nat, halfInc: nat)

  /** `internal`: the turning-point filter (last slope, local extrema), the stream position and the delay stage. */
  datatype Internal = Internal(slope: int, lo: Tuple, hi: Tuple, extremaChanged: bool, pos: nat,
                               margin0: Tuple, margin1: Tuple, delayed: Tuple)

  /** `internal.hcm`: the HCM stack as the whole buffer and its base-1 cursors IZ and IR. */
  datatype HcmState = HcmState(stack: seq<Tuple>, iz: nat, ir: nat)

  /** The aggregates: the from/to matrix, the range pairs, the level crossings and the damage. */
  datatype Counters = Counters(matrix: seq<nat>, rp: seq<nat>, lc: seq<nat>, damage: real)

  /** The turning-point history; `hasHistory` stands for a non-null buffer. */
  datatype TpStore = TpStore(history: seq<Tuple>, hasHistory: bool, locked: bool)

  /**
   * The context. The residue is held as the whole backing array, stale
   * slots included; `cnt` counts the confirmed points.
   */
  datatype Session = Session(cfg: Config, currInc: nat, state: State, error: ErrorKind,
                             res: seq<Tuple>, cnt: nat, internal: Internal, hcm: HcmState,
                             counters: Counters, tp: TpStore)
  {
    const count: nat := cfg.count
    const width: int := cfg.width
    const offset: int := cfg.offset
    const hysteresis: int := cfg.hysteresis
    const flags: Flags := cfg.flags
    const counting: CountingMethod := cfg.counting
    const damageOf: (nat, nat) -> real := cfg.damageOf
    const fullInc: nat := cfg.fullInc
    const halfInc: nat := cfg.halfInc
    const slope: int := internal.slope
    const lo: Tuple := internal.lo
    const hi: Tuple := internal.hi
    const extremaChanged: bool := internal.extremaChanged
    const pos: nat := internal.pos
    const margin0: Tuple := internal.margin0
    const margin1: Tuple := internal.margin1
    const delayed: Tuple := internal.delayed
    const stack: seq<Tuple> := hcm.stack
    const iz: nat := hcm.iz
    const ir: nat := hcm.ir
    const matrix: seq<nat> := counters.matrix
    const rp: seq<nat> := counters.rp
    const lc: seq<nat> := counters.lc
    const damage: real := counters.damage
    const history: seq<Tuple> := tp.history
    const hasHistory: bool := tp.hasHistory
    const locked: bool := tp.locked
  }

  /** 1 while the interim point occupies `res[cnt]`, else 0. */
  function InterimSlot(s: Session): nat
  {
    if s.state == BusyInterim then 1 else 0
  }

  /** The class parameters `RFC_init` accepts, and the increment it installs. */
  predicate Configured(s: Session)
  {
    1 <= s.count <= MAX_CLASS_COUNT && s.width > 0 && s.fullInc > 0
  }

  /** Buffer sizes and cursor ranges that every operation keeps. */
  predicate Sized(s: Session)
  {
    && |s.matrix| == s.count * s.count && |s.rp| == s.count && |s.lc| == s.count
    && s.cnt <= |s.res|
    && 1 <= s.ir <= s.iz + 1 && s.iz <= |s.stack|
    && (s.ir == 1 ==> s.iz == 0)
  }

  /** The session invariant that holds between calls of the public operations. */
  predicate Wf(s: Session)
  {
    && Sized(s)
    && (s.state == BusyInterim ==> s.cnt < |s.res|)
    && (s.state in {Init, Busy, BusyInterim} ==> Configured(s))
    && (s.state == Busy ==> s.lo.value <= s.hi.value <= s.lo.value + s.hysteresis)
  }

  /** The confirmed turning points of the residue. */
  function Confirmed(s: Session): seq<Tuple>
    requires s.cnt <= |s.res|
  {
    s.res[..s.cnt]
  }

  // ---------------------------------------------------------------------
  // Per-cycle aggregator (RFC_cycle_process)
  // ---------------------------------------------------------------------

  /** The clamped class of a value above the offset. */
  function ClassOf(s: Session, v: int): (c: nat)
    requires s.count >= 1 && s.width > 0 && v >= s.offset
    ensures c < s.count
  {
    Clamp(Quantize(s.offset, s.width, v), s.count)
  }

  /** Row-major index of the from/to cell of the matrix. */
  function Cell(count: nat, from: nat, to: nat): (i: nat)
    requires from < count && to < count
    ensures i < count * count
  {
    CellBound(count, from, to);
    count * from + to
  }

  lemma CellBound(count: nat, from: nat, to: nat)
    requires from < count && to < count
    ensures count * from + to < count * count
  {
    MulMonotone(from + 1, count, count);
    assert (from + 1) * count == count * from + count;
  }

  /** `xs` with `inc` added to every entry in `[lo, hi)`. */
  function AddRange(xs: seq<nat>, lo: nat, hi: nat, inc: nat): (r: seq<nat>)
    ensures |r| == |xs|
  {
    seq(|xs|, i requires 0 <= i < |xs| => if lo <= i < hi then xs[i] + inc else xs[i])
  }

  /** The damage of one cycle between two classes, weighted by the increment (`inc / full` of a full cycle). */
  function CycleDamage(damageOf: (nat, nat) -> real, cf: nat, ct: nat, inc: nat, full: nat): real
    requires full > 0
  {
    damageOf(cf, ct) * (inc as real) / (full as real)
  }

  /** With margins enforced, a cycle within the hysteresis band is not counted. */
  predicate Skipped(s: Session, from: Tuple, to: Tuple)
  {
    s.flags.enforceMargin && ValueDelta(from.value, to.value).magnitude <= s.hysteresis
  }

  /** The lc entries a cycle between two classes sweeps: `[min, max)`, direction-gated. */
  predicate Swept(s: Session, cf: nat, ct: nat, i: nat)
  {
    (cf < ct && s.flags.countLcUp && cf <= i < ct) || (ct < cf && s.flags.countLcDn && ct <= i < cf)
  }

  /**
   * What `RFC_cycle_process` asserts: both points above the class offset
   * (rainflow.c:1590) and every counter it increments at most COUNTS_LIMIT
   * (rainflow.c:1639, 1652, 1671, 1681); plus the buffer sizes it relies on.
   */
  predicate ProcessFits(s: Session, from: Tuple, to: Tuple)
  {
    && Sized(s) && s.count >= 1 && s.width > 0 && s.fullInc > 0
    && from.value > s.offset && to.value > s.offset
    && (!Skipped(s, from, to) ==>
          var cf, ct := ClassOf(s, from.value), ClassOf(s, to.value);
          cf != ct ==>
            && (s.flags.countMatrix ==> s.matrix[Cell(s.count, cf, ct)] <= COUNTS_LIMIT)
            && (s.flags.countRp ==> s.rp[Dist(cf, ct)] <= COUNTS_LIMIT)
            && (forall i :: 0 <= i < s.count && Swept(s, cf, ct, i) ==> s.lc[i] <= COUNTS_LIMIT))
  }

  /** `RFC_cycle_process`: count the closed cycle `from -> to` at the current increment. */
  function Process(s: Session, from: Tuple, to: Tuple): (r: Session)
    requires ProcessFits(s, from, to)
    ensures r == s.(counters := r.counters)
    ensures Sized(r)
  {
    if Skipped(s, from, to) then s
    else
      var cf, ct := ClassOf(s, from.value), ClassOf(s, to.value);
      if cf == ct then s
      else
        var inc := s.currInc;
        var m := Cell(s.count, cf, ct);
        var d := Dist(cf, ct);
        s.(counters := s.counters.(damage := s.damage + CycleDamage(s.damageOf, cf, ct, inc, s.fullInc), matrix := if s.flags.countMatrix then s.matrix[m := s.matrix[m] + inc] else s.matrix, rp := if s.flags.countRp then s.rp[d := s.rp[d] + inc] else s.rp, lc := if cf < ct && s.flags.countLcUp then AddRange(s.lc, cf, ct, inc)
                 else if ct < cf && s.flags.countLcDn then AddRange(s.lc, ct, cf, inc)
                 else s.lc))
  }

  /** Processing every cycle of a list in order stays within the asserts. */
  predicate ProcessAllFits(s: Session, cs: seq<Cycle>)
    decreases |cs|
  {
    Sized(s) && (|cs| > 0 ==> ProcessFits(s, cs[0].from, cs[0].to)
                              && ProcessAllFits(Process(s, cs[0].from, cs[0].to), cs[1..]))
  }

  /** Process a list of closed cycles, first to last. */
  function ProcessAll(s: Session, cs: seq<Cycle>): (r: Session)
    requires ProcessAllFits(s, cs)
    ensures r == s.(counters := r.counters)
    ensures Sized(r)
    decreases |cs|
  {
    if |cs| == 0 then s else ProcessAll(Process(s, cs[0].from, cs[0].to), cs[1..])
  }

  /**
   * The aggregator, cell by cell: classes are clamped, equal classes (and,
   * with margins, cycles within the hysteresis) change nothing; otherwise
   * the from/to cell and the range bucket grow by the current increment,
   * the lc entries in `[min, max)` grow by it in the enabled direction,
   * and every other counter is unchanged.
   */
  lemma ProcessCells(s: Session, from: Tuple, to: Tuple)
    requires ProcessFits(s, from, to)
    ensures var r := Process(s, from, to);
            var cf, ct := ClassOf(s, from.value), ClassOf(s, to.value);
            var counted := !Skipped(s, from, to) && cf != ct;
            && (!counted ==> r == s)
            && (forall i :: 0 <= i < |s.matrix| ==>
                  r.matrix[i] == s.matrix[i] + (if counted && s.flags.countMatrix && i == s.count * cf + ct then s.currInc else 0))
            && (forall i :: 0 <= i < |s.rp| ==>
                  r.rp[i] == s.rp[i] + (if counted && s.flags.countRp && i == Dist(cf, ct) then s.currInc else 0))
            && (forall i :: 0 <= i < |s.lc| ==>
                  r.lc[i] == s.lc[i] + (if counted && Swept(s, cf, ct, i) then s.currInc else 0))
  {
  }

  /** Processing a list of cycles is processing its two halves one after the other. */
  lemma {:induction false} ProcessAllAppend(s: Session, xs: seq<Cycle>, ys: seq<Cycle>)
    requires ProcessAllFits(s, xs)
    ensures ProcessAllFits(s, xs + ys) <==> ProcessAllFits(ProcessAll(s, xs), ys)
    ensures ProcessAllFits(s, xs + ys) ==> ProcessAll(s, xs + ys) == ProcessAll(ProcessAll(s, xs), ys)
    decreases |xs|
  {
    if |xs| > 0 {
      assert (xs + ys)[0] == xs[0];
      assert (xs + ys)[1..] == xs[1..] + ys;
      ProcessAllAppend(Process(s, xs[0].from, xs[0].to), xs[1..], ys);
    } else {
      assert xs + ys == ys;
    }
  }

  /** Processing a list that starts with `c` is processing `c`, then the rest. */
  lemma ProcessAllCons(s: Session, c: Cycle, cs: seq<Cycle>)
    requires ProcessAllFits(s, [c] + cs)
    ensures ProcessFits(s, c.from, c.to) && ProcessAllFits(Process(s, c.from, c.to), cs)
    ensures ProcessAll(s, [c] + cs) == ProcessAll(Process(s, c.from, c.to), cs)
  {
    assert ([c] + cs)[0] == c && ([c] + cs)[1..] == cs;
  }

  /**
   * Every prefix of a list that may be processed may be processed, and the
   * rest may be processed after it.
   */
  lemma {:induction false} ProcessAllPrefix(s: Session, cs: seq<Cycle>, i: nat)
    requires ProcessAllFits(s, cs) && i <= |cs|
    ensures ProcessAllFits(s, cs[..i]) && ProcessAllFits(ProcessAll(s, cs[..i]), cs[i..])
    decreases i
  {
    if i > 0 {
      var t := Process(s, cs[0].from, cs[0].to);
      var xs := cs[..i];
      ProcessAllPrefix(t, cs[1..], i - 1);
      assert xs[0] == cs[0] && xs[1..] == cs[1..][..i - 1];
      assert ProcessAllFits(s, xs);
      assert ProcessAll(s, xs) == ProcessAll(t, cs[1..][..i - 1]);
      assert cs[1..][i - 1..] == cs[i..];
    }
  }

  /** `r` differs from `s` at most in the residue, the stack and the counters. */
  ghost predicate CountsOnly(s: Session, r: Session)
  {
    r == s.(res := r.res, cnt := r.cnt, hcm := r.hcm, counters := r.counters)
  }

  /** `u` is `t` with a different residue and stack, which the aggregator neither reads nor writes. */
  ghost predicate SameCounters(t: Session, u: Session)
  {
    u == t.(res := u.res, cnt := u.cnt, hcm := u.hcm) && Sized(u)
  }

  /** Processing one cycle commutes with replacing the residue and the stack. */
  lemma ProcessFrame(t: Session, u: Session, from: Tuple, to: Tuple)
    requires ProcessFits(t, from, to) && SameCounters(t, u)
    ensures ProcessFits(u, from, to)
    ensures SameCounters(Process(t, from, to), Process(u, from, to))
  {
  }

  /** Processing cycles commutes with replacing the residue and the stack. */
  lemma {:induction false} ProcessAllFrame(t: Session, u: Session, cs: seq<Cycle>)
    requires ProcessAllFits(t, cs) && SameCounters(t, u)
    ensures ProcessAllFits(u, cs)
    ensures ProcessAll(u, cs) == ProcessAll(t, cs).(res := u.res, cnt := u.cnt, hcm := u.hcm)
    decreases |cs|
  {
    if |cs| > 0 {
      ProcessFrame(t, u, cs[0].from, cs[0].to);
      ProcessAllFrame(Process(t, cs[0].from, cs[0].to), Process(u, cs[0].from, cs[0].to), cs[1..]);
    }
  }
}
