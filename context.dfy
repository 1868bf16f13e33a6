/**
 * The rainflow context as the source keeps it: one object whose fields
 * the operations update in place, with buffers for the residue, the HCM
 * stack and the counters. The configuration, the internal filter state
 * and the history are grouped as in the value model.
 * Every method is proved to move the object exactly as the value model
 * moves a `Session`.
 */
module RfcContext {
  import opened RfcTypes
  import opened RfcSession
  import opened RfcFilter
  import opened RfcEngines
  import opened RfcPipeline
  import opened RfcMatrix

  class Rfc {
    var cfg: Config
    var currInc: nat
    var state: State
    var error: ErrorKind
    const residue: array<Tuple>
    var cnt: nat
    var internal: Internal
    const stack: array<Tuple>
    var iz: nat
    var ir: nat
    const matrix: array<nat>
    const rp: array<nat>
    const lc: array<nat>
    var damage: real
    var tp: TpStore

    /** The buffers never alias one another. */
    ghost predicate Valid()
    {
      residue != stack && matrix != rp && matrix != lc && rp != lc
    }

    /** The object as a value of the model. */
    ghost function View(): Session
      reads this, residue, stack, matrix, rp, lc
    {
      Session(cfg, currInc, state, error, residue[..], cnt, internal, HcmState(stack[..], iz, ir),
              Counters(matrix[..], rp[..], lc[..], damage), tp)
    }

    // -------------------------------------------------------------------
    // RFC_init, RFC_reset
    // -------------------------------------------------------------------

    /**
     * `RFC_init` on a zero-initialised context: the buffers are allocated
     * here, or left empty when the class parameters are rejected.
     */
    constructor (count: nat, width: int, offset: int, hysteresis: int, withHistory: bool,
                 damageOf: (nat, nat) -> real)
      ensures Valid() && View() == Initialize(Blank(damageOf), count, width, offset, hysteresis, withHistory).0
    {
      currInc, damage := FULL_CYCLE_INCREMENT, 0.0;
      cnt, iz := 0, 0;
      internal := Internal(0, Nil, Nil, false, 0, Nil, Nil, Nil);
      if BadClasses(count, width) {
        cfg := Config(0, 0, 0, 0, CountAll, NoCounting, damageOf, FULL_CYCLE_INCREMENT, HALF_CYCLE_INCREMENT);
        state, error := Init0, InvalidArgument;
        residue, stack := new Tuple[0], new Tuple[0];
        ir := 0;
        matrix, rp, lc := new nat[0], new nat[0], new nat[0];
        tp := TpStore([], false, false);
      } else {
        cfg := Config(count, width, offset, hysteresis, CountAll, FourPoint, damageOf,
                      FULL_CYCLE_INCREMENT, HALF_CYCLE_INCREMENT);
        state, error := Init, NoError;
        residue, stack := new Tuple[2 * count](_ => Nil), new Tuple[2 * count](_ => Nil);
        ir := 1;
        matrix := new nat[count * count](_ => 0);
        rp, lc := new nat[count](_ => 0), new nat[count](_ => 0);
        tp := TpStore([], withHistory, false);
      }
      new;
      assert residue[..] == Nils(|residue[..]|) && stack[..] == Nils(|stack[..]|);
      assert matrix[..] == Zeros(|matrix[..]|) && rp[..] == Zeros(|rp[..]|) && lc[..] == Zeros(|lc[..]|);
    }

    /** `RFC_reset`: zero the counters and forget the stream, back to INIT0. */
    method Reset()
      requires Valid() && Wf(View()) && state == Init
      modifies this, matrix, rp, lc
      ensures View() == RfcPipeline.Reset(old(View()))
    {
      ClearCounters();
      damage := 0.0;
      cnt := 0;
      internal := Internal(0, Nil, Nil, false, 0, Nil, Nil, Nil);
      tp := tp.(history := [], locked := false);
      ir, iz := 1, 0;
      state := Init0;
    }

    /** The counter part of `RFC_reset`: every cell of the matrix, the range pairs and the level crossings is zero. */
    method ClearCounters()
      requires Valid()
      modifies matrix, rp, lc
      ensures matrix[..] == Zeros(matrix.Length) && rp[..] == Zeros(rp.Length) && lc[..] == Zeros(lc.Length)
    {
      forall i | 0 <= i < matrix.Length {
        matrix[i] := 0;
      }
      forall i | 0 <= i < rp.Length {
        rp[i] := 0;
      }
      forall i | 0 <= i < lc.Length {
        lc[i] := 0;
      }
      assert matrix[..] == Zeros(matrix.Length);
      assert rp[..] == Zeros(rp.Length) && lc[..] == Zeros(lc.Length);
    }

    // -------------------------------------------------------------------
    // RFC_tp_add, RFC_tp_lock
    // -------------------------------------------------------------------

    /** `RFC_tp_add`. */
    method TpAdd(point: Option<Tuple>)
      modifies this`tp
      ensures View() == RfcPipeline.TpAdd(old(View()), point)
    {
      if point.Some? && tp.hasHistory && !tp.locked {
        tp := tp.(history := tp.history + [point.value]);
      }
    }

    /** `RFC_tp_lock`. */
    method TpLock(lock: bool)
      modifies this`tp
      ensures View() == RfcPipeline.TpLock(old(View()), lock)
    {
      tp := tp.(locked := lock);
    }

    // -------------------------------------------------------------------
    // RFC_tp_next
    // -------------------------------------------------------------------

    /** `RFC_tp_next`: the confirmed turning point, if the sample confirms one. */
    method TpNext(pt: Tuple) returns (turn: Option<Tuple>)
      requires Valid() && TpNextFits(View(), pt)
      modifies this, residue
      ensures (View(), turn) == RfcFilter.TpNext(old(View()), pt)
    {
      if state == Init {
        internal := internal.(lo := pt, hi := pt);
        state := Busy;
        turn := None;
      } else if state == Busy {
        turn := TpNextBusy(pt);
      } else {
        turn := TpNextInterim(pt);
      }
    }

    /** The startup branch of `RFC_tp_next`. */
    method TpNextBusy(pt: Tuple) returns (turn: Option<Tuple>)
      requires Valid() && TpNextFits(View(), pt) && state == Busy
      modifies this, residue
      ensures (View(), turn) == RfcFilter.TpNextBusy(old(View()), pt)
    {
      var e := internal;
      var falling := false;
      if pt.value < e.lo.value {
        falling := true;
        e := e.(lo := pt, extremaChanged := true);
      } else if pt.value > e.hi.value {
        e := e.(hi := pt, extremaChanged := true);
      }
      if ValueDelta(e.lo.value, e.hi.value).magnitude > cfg.hysteresis {
        residue[cnt] := if falling then e.hi else e.lo;
        residue[cnt + 1] := pt;
        internal := e.(slope := if falling then -1 else 1);
        cnt, state := cnt + 1, BusyInterim;
        turn := Some(residue[cnt - 1]);
      } else {
        internal := e;
        turn := None;
      }
    }

    /** The steady branch of `RFC_tp_next`: the three scenarios against the interim point. */
    method TpNextInterim(pt: Tuple) returns (turn: Option<Tuple>)
      requires Valid() && TpNextFits(View(), pt) && state == BusyInterim
      modifies this, residue
      ensures (View(), turn) == RfcFilter.TpNextInterim(old(View()), pt)
    {
      var d := ValueDelta(residue[cnt].value, pt.value);
      turn := None;
      if d.sign == internal.slope {
        if residue[cnt].value != pt.value {
          residue[cnt] := pt;
        }
      } else if d.magnitude > cfg.hysteresis {
        internal := internal.(slope := d.sign);
        residue[cnt + 1] := pt;
        cnt := cnt + 1;
        turn := Some(residue[cnt - 1]);
      }
    }

    // -------------------------------------------------------------------
    // RFC_cycle_process
    // -------------------------------------------------------------------

    /** `RFC_cycle_process`: count the closed cycle `from -> to`. */
    method CycleProcess(from: Tuple, to: Tuple)
      requires Valid() && ProcessFits(View(), from, to)
      modifies this`damage, matrix, rp, lc
      ensures View() == Process(old(View()), from, to)
    {
      if cfg.flags.enforceMargin && ValueDelta(from.value, to.value).magnitude <= cfg.hysteresis {
        return;
      }
      var n := cfg.count;
      var cf := Clamp(Quantize(cfg.offset, cfg.width, from.value), n);
      var ct := Clamp(Quantize(cfg.offset, cfg.width, to.value), n);
      assert !Skipped(View(), from, to) && cf == ClassOf(View(), from.value) && ct == ClassOf(View(), to.value);
      if cf == ct {
        return;
      }
      ghost var r := Process(old(View()), from, to);
      damage := damage + CycleDamage(cfg.damageOf, cf, ct, currInc, cfg.fullInc);
      assert damage == r.damage;
      if cfg.flags.countMatrix {
        var idx := Cell(n, cf, ct);
        matrix[idx] := matrix[idx] + currInc;
      }
      assert matrix[..] == r.matrix;
      if cfg.flags.countRp {
        var idx := Dist(cf, ct);
        rp[idx] := rp[idx] + currInc;
      }
      assert rp[..] == r.rp;
      if cf < ct && cfg.flags.countLcUp {
        CountCrossings(cf, ct);
      } else if ct < cf && cfg.flags.countLcDn {
        CountCrossings(ct, cf);
      }
      assert lc[..] == r.lc;
    }

    /** The level-crossing loop of `RFC_cycle_process`: every level in `[first, last)` grows by the increment. */
    method CountCrossings(first: nat, last: nat)
      requires first <= last <= lc.Length
      modifies lc
      ensures lc[..] == AddRange(old(lc[..]), first, last, currInc)
    {
      var idx := first;
      while idx < last
        invariant first <= idx <= last
        invariant lc[..] == AddRange(old(lc[..]), first, idx, currInc)
      {
        lc[idx] := lc[idx] + currInc;
        idx := idx + 1;
      }
    }

    // -------------------------------------------------------------------
    // RFC_residue_remove_item
    // -------------------------------------------------------------------

    /** `RFC_residue_remove_item`: delete `count` points at `index`, interim point included in the shift. */
    method RemoveItem(index: nat, count: nat)
      requires Valid() && RemoveFits(View(), index, count)
      modifies this`cnt, residue
      ensures View() == RfcEngines.RemoveItem(old(View()), index, count)
    {
      var end := cnt;
      if state == BusyInterim {
        end := end + 1;
      }
      ghost var r := RfcEngines.RemoveItem(View(), index, count);
      assert index + count <= cnt && end == ResidueEnd(View()) <= residue.Length;
      ShiftDown(index, count, end);
      assert residue[..] == r.res;
      cnt := cnt - count;
    }

    /** Move the slots `[index + count, end)` down to `index`; the slots from `end - count` on keep their contents. */
    method ShiftDown(index: nat, count: nat, end: nat)
      requires index + count <= end <= residue.Length
      modifies residue
      ensures residue[..] == old(residue[..index] + residue[index + count..end] + residue[end - count..])
    {
      ghost var a := residue[..];
      ghost var b := a[..index] + a[index + count..end] + a[end - count..];
      ShiftIndex(a, index, count, end);
      var from, to := index + count, index;
      while from < end
        invariant index <= to <= end - count && from == to + count && from <= end
        invariant forall i :: 0 <= i < residue.Length ==>
                    residue[i] == if i < to then b[i] else a[i]
      {
        residue[to] := residue[from];
        to, from := to + 1, from + 1;
      }
      assert residue[..] == b;
    }

    // -------------------------------------------------------------------
    // RFC_cycle_find_4ptm
    // -------------------------------------------------------------------

    /** `RFC_cycle_find_4ptm`: close cycles at the end of the residue while the 4-point test holds. */
    method Find4()
      requires Valid() && Find4Fits(View())
      modifies this`damage, this`cnt, residue, matrix, rp, lc
      ensures View() == RfcEngines.Find4(old(View()))
    {
      var closed := true;
      while closed
        invariant Find4Fits(View()) && RfcEngines.Find4(View()) == RfcEngines.Find4(old(View()))
        invariant !closed ==> RfcEngines.Find4(View()) == View()
        decreases cnt + (if closed then 1 else 0)
      {
        closed := Step4();
      }
    }

    /**
     * One pass of the 4-point loop: when the last four residue points
     * enclose the inner pair, close it; report whether a cycle was closed.
     */
    method Step4() returns (closed: bool)
      requires Valid() && Find4Fits(View())
      modifies this`damage, this`cnt, residue, matrix, rp, lc
      ensures closed == Closable4(old(View()))
      ensures Find4Fits(View()) && RfcEngines.Find4(View()) == RfcEngines.Find4(old(View()))
      ensures closed ==> View() == RfcEngines.Close4(old(View())) && cnt < old(cnt)
      ensures !closed ==> View() == old(View())
    {
      ghost var v := View();
      closed := cnt >= 4 && Enclosed(residue[cnt - 4].value, residue[cnt - 3].value, residue[cnt - 2].value, residue[cnt - 1].value);
      assert closed == Closable4(v);
      if closed {
        assert Close4Fits(v) && Find4Fits(RfcEngines.Close4(v)) && RfcEngines.Find4(v) == RfcEngines.Find4(RfcEngines.Close4(v));
        Close4();
      }
    }

    /**
     * One closing step: count the inner pair, move the last confirmed point
     * (and the interim point) down over it and drop two points.
     */
    method Close4()
      requires Valid() && Close4Fits(View())
      modifies this`damage, this`cnt, residue, matrix, rp, lc
      ensures View() == RfcEngines.Close4(old(View()))
    {
      ghost var r := RfcEngines.Close4(View());
      var idx := cnt - 4;
      CycleProcess(residue[idx + 1], residue[idx + 2]);
      assert View() == Process(old(View()), old(residue[idx + 1]), old(residue[idx + 2]));
      residue[idx + 1] := residue[idx + 3];
      if state == BusyInterim {
        residue[idx + 2] := residue[idx + 4];
      }
      assert residue[..] == r.res;
      cnt := cnt - 2;
    }

    // -------------------------------------------------------------------
    // RFC_cycle_find_hcm
    // -------------------------------------------------------------------

    /**
     * `RFC_cycle_find_hcm`: take every confirmed point through HCM with
     * local base-0 cursors and store them back in base 1.
     */
    method HcmFind()
      requires Valid() && HcmFits(View(), Local(View()))
      modifies this`damage, this`cnt, this`iz, this`ir, residue, stack, matrix, rp, lc
      ensures View() == RfcEngines.HcmFind(old(View()))
    {
      ghost var goal := HcmLoop(View(), Local(View()));
      var c := Cursors(iz - 1, ir - 1);
      assert c == Local(View());
      while cnt > 0
        invariant HcmFits(View(), c) && HcmLoop(View(), c) == goal
        invariant iz == old(iz) && ir == old(ir)
        decreases cnt
      {
        c := HcmTake(c);
      }
      assert goal == (View(), c);
      iz, ir := c.iz + 1, c.ir + 1;
    }

    /** One pass of HCM's main loop: take K = `residue[0]` into the stack, then remove it from the residue. */
    method HcmTake(c: Cursors) returns (next: Cursors)
      requires Valid() && cnt > 0 && HcmFits(View(), c)
      modifies this`damage, this`cnt, residue, stack, matrix, rp, lc
      ensures var s := old(View());
              var st := HcmStep(s.stack, c, s.res[0]);
              && next == st.cursors
              && View() == RfcEngines.RemoveItem(ProcessAll(s, st.cycles).(hcm := s.hcm.(stack := st.stack)), 0, 1)
    {
      ghost var s := View();
      ghost var st := HcmStep(s.stack, c, s.res[0]);
      next := HcmPush(residue[0], c);
      ghost var p := ProcessAll(s, st.cycles).(hcm := s.hcm.(stack := st.stack));
      assert p.cnt == s.cnt && p.res == s.res && p.state == s.state && RemoveFits(p, 0, 1);
      assert View() == p;
      RemoveItem(0, 1);
    }

    /** Seed the stack with K if it is empty, close the cycles K closes, and push K. */
    method HcmPush(k: Tuple, c: Cursors) returns (d: Cursors)
      requires Valid() && HcmStepFits(stack[..], c, k) && ProcessAllFits(View(), HcmStep(stack[..], c, k).cycles)
      modifies this`damage, stack, matrix, rp, lc
      ensures var s := old(View());
              var st := HcmStep(s.stack, c, k);
              && d == st.cursors
              && View() == ProcessAll(s, st.cycles).(hcm := s.hcm.(stack := st.stack))
    {
      ghost var s := View();
      ghost var st := HcmStep(s.stack, c, k);
      d := c;
      if d.ir == 0 {
        stack[0] := k;
        d := d.(ir := 1);
      }
      ghost var seeded := View();
      assert seeded == s.(hcm := s.hcm.(stack := seeded.stack));
      assert (seeded.stack, d) == Seed(s.stack, c, k);
      ghost var l := Label2(seeded.stack, d, k);
      assert l.1 == st.cycles && st.stack == seeded.stack[l.0.iz + 1 := k] && st.cursors == l.0.(iz := l.0.iz + 1);
      ProcessAllFrame(s, seeded, st.cycles);
      d := Label2Loop(k, d);
      assert View() == ProcessAll(s, st.cycles).(hcm := s.hcm.(stack := seeded.stack));
      d := d.(iz := d.iz + 1);
      stack[d.iz] := k;
      assert stack[..] == st.stack;
    }

    /**
     * The closing loop of HCM (label 2) against the point `k`: pop points
     * that are no turning points and count every cycle I-J that K closes.
     */
    method Label2Loop(k: Tuple, c: Cursors) returns (d: Cursors)
      requires Valid() && CursorsOk(c, stack.Length) && ProcessAllFits(View(), Label2(stack[..], c, k).1)
      modifies this`damage, matrix, rp, lc
      ensures d == Label2(stack[..], c, k).0
      ensures View() == ProcessAll(old(View()), Label2(stack[..], c, k).1)
    {
      ghost var st := stack[..];
      ghost var goal := ProcessAll(View(), Label2(st, c, k).1);
      d := c;
      var closing := true;
      while closing
        invariant CursorsOk(d, |st|) && stack[..] == st
        invariant Label2(st, d, k).0 == Label2(st, c, k).0
        invariant ProcessAllFits(View(), Label2(st, d, k).1)
        invariant ProcessAll(View(), Label2(st, d, k).1) == goal
        invariant !closing ==> Label2(st, d, k) == (d, [])
        decreases closing, d.iz + 1
      {
        if d.iz > d.ir {
          var i, j := stack[d.iz - 1], stack[d.iz];
          if NoTurn(i, j, k) {
            d := d.(iz := d.iz - 1);
          } else if Abs(k.value - j.value) >= Abs(j.value - i.value) {
            ghost var rest := Label2(st, d.(iz := d.iz - 2), k).1;
            assert Label2(st, d, k).1 == [Cycle(i, j)] + rest;
            ProcessAllCons(View(), Cycle(i, j), rest);
            CycleProcess(i, j);
            d := d.(iz := d.iz - 2);
          } else {
            closing := false;
          }
        } else {
          // At IZ == IR K is compared with the residual point; after that,
          // as with IZ < IR, nothing on the stack can close.
          if d.iz == d.ir {
            var j := stack[d.iz];
            if NoTurnAtResidual(j, k) {
              d := d.(iz := d.iz - 1);
            } else if Abs(k.value) > Abs(j.value) {
              d := d.(ir := d.ir + 1);
            }
          }
          closing := false;
        }
      }
    }
  

    // -------------------------------------------------------------------
    // RFC_cycle_find
    // -------------------------------------------------------------------

    /** `RFC_cycle_find`: run the selected counting method on the residue. */
    method CycleFind()
      requires Valid() && CycleFindFits(View())
      modifies this`damage, this`cnt, this`iz, this`ir, residue, stack, matrix, rp, lc
      ensures View() == RfcPipeline.CycleFind(old(View()))
    {
      match cfg.counting
      case NoCounting => RemoveItem(0, cnt);
      case FourPoint => Find4();
      case Hcm => HcmFind();
    }

    // -------------------------------------------------------------------
    // RFC_feed_once
    // -------------------------------------------------------------------

    /** The delay stage of `RFC_feed_once`: the point it lets through, if any. */
    method Delay(pt: Tuple, found: Option<Tuple>) returns (pass: Option<Tuple>)
      modifies this`internal
      ensures (View(), pass) == RfcPipeline.Delay(old(View()), pt, found)
    {
      pass := found;
      if cfg.flags.enforceMargin && tp.hasHistory && !tp.locked {
        if pt.pos == 1 {
          internal := internal.(margin0 := pt, delayed := pt);
          pass := None;
        } else if found.Some? && internal.delayed.value == found.value.value {
          pass := None;
        }
        if pt.pos > 1 {
          internal := internal.(margin1 := pt);
        }
        if pass.Some? {
          var delayed := internal.delayed;
          internal := internal.(delayed := pass.value);
          pass := Some(delayed);
        }
      }
    }

    /** `RFC_feed_once`: filter one sample, store and count the turning point it yields. */
    method FeedOnce(pt: Tuple)
      requires Valid() && FeedOnceFits(View(), pt)
      modifies this, residue, stack, matrix, rp, lc
      ensures View() == RfcPipeline.FeedOnce(old(View()), pt)
    {
      ghost var n := RfcFilter.TpNext(View(), pt);
      var found := TpNext(pt);
      ghost var d := RfcPipeline.Delay(n.0, pt, n.1);
      found := Delay(pt, found);
      assert (View(), found) == d;
      if found.Some? {
        TpAdd(found);
        assert View() == RfcPipeline.TpAdd(d.0, d.1);
        CycleFind();
      }
    }

    // -------------------------------------------------------------------
    // RFC_feed, RFC_feed_tuple
    // -------------------------------------------------------------------

    /** `RFC_feed`: refused outside `[INIT, FINISHED)`; otherwise every sample is stamped and fed. */
    method Feed(data: seq<int>) returns (ok: bool)
      requires Valid() && FeedFits(View(), data)
      modifies this, residue, stack, matrix, rp, lc
      ensures (View(), ok) == RfcPipeline.Feed(old(View()), data)
    {
      if Rank(state) < Rank(Init) || Rank(state) >= Rank(Finished) {
        return false;
      }
      ghost var goal := FeedSamples(View(), data);
      var i := 0;
      while i < |data|
        invariant i <= |data|
        invariant FeedSamplesFits(View(), data[i..]) && FeedSamples(View(), data[i..]) == goal
      {
        FeedNext(data, i);
        i := i + 1;
      }
      assert data[i..] == [];
      ok := true;
    }

    /** One pass of the `RFC_feed` loop, stated against the samples still to come. */
    method FeedNext(data: seq<int>, i: nat)
      requires Valid() && i < |data| && FeedSamplesFits(View(), data[i..])
      modifies this, residue, stack, matrix, rp, lc
      ensures FeedSamplesFits(View(), data[i + 1..])
      ensures FeedSamples(View(), data[i + 1..]) == FeedSamples(old(View()), data[i..])
    {
      ghost var t := FeedSamplesCons(View(), data[i..]);
      assert data[i..][0] == data[i] && data[i..][1..] == data[i + 1..];
      FeedSample(data[i]);
    }

    /** A sample of the `RFC_feed` loop: stamp the sample with its class and the next position, then feed it. */
    method FeedSample(v: int)
      requires Valid() && cfg.width > 0 && v >= cfg.offset
      requires var s, pt := View(), Stamp(View(), v); FeedOnceFits(s.(internal := s.internal.(pos := pt.pos)), pt)
      modifies this, residue, stack, matrix, rp, lc
      ensures var s, pt := old(View()), Stamp(old(View()), v); View() == RfcPipeline.FeedOnce(s.(internal := s.internal.(pos := pt.pos)), pt)
    {
      ghost var s := View();
      internal := internal.(pos := internal.pos + 1);
      var pt := Tuple(v, Quantize(cfg.offset, cfg.width, v), internal.pos);
      assert pt == Stamp(s, v) && View() == s.(internal := s.internal.(pos := pt.pos));
      FeedOnce(pt);
    }

    /** `RFC_feed_tuple`: like `Feed`, for tuples that already carry their class and position. */
    method FeedTuple(data: seq<Tuple>) returns (ok: bool)
      requires Valid() && FeedTupleFits(View(), data)
      modifies this, residue, stack, matrix, rp, lc
      ensures (View(), ok) == RfcPipeline.FeedTuple(old(View()), data)
    {
      if Rank(state) < Rank(Init) || Rank(state) >= Rank(Finished) {
        return false;
      }
      ghost var goal := FeedTuples(View(), data);
      var i := 0;
      while i < |data|
        invariant i <= |data|
        invariant FeedTuplesFits(View(), data[i..]) && FeedTuples(View(), data[i..]) == goal
      {
        assert data[i..][0] == data[i] && data[i..][1..] == data[i + 1..];
        FeedOnce(data[i]);
        i := i + 1;
      }
      assert data[i..] == [];
      ok := true;
    }

    // -------------------------------------------------------------------
    // RFC_feed_finalize
    // -------------------------------------------------------------------

    /** `RFC_feed_finalize`: refused from FINALIZE on; otherwise settle the residue and the history and enter FINALIZE. */
    method FeedFinalize() returns (ok: bool)
      requires Valid() && FeedFinalizeFits(View())
      modifies this, residue, stack, matrix, rp, lc
      ensures (View(), ok) == RfcPipeline.FeedFinalize(old(View()))
    {
      if Rank(state) >= Rank(RfcTypes.Finalize) {
        return false;
      }
      FoldAndCount();
      TpLock(true);
      if cfg.counting == Hcm && iz > 0 {
        MoveStack();
      }
      state := RfcTypes.Finalize;
      ok := true;
    }

    /** Take the interim point into the residue, finish the history and count once more. */
    method FoldAndCount()
      requires Valid() && Wf(View()) && HistoryFits(View(), Interim(View()))
      requires state == BusyInterim ==> CycleFindFits(RfcPipeline.FinalizeHistory(Fold(View()), Interim(View())))
      modifies this, residue, stack, matrix, rp, lc
      ensures View() == RfcPipeline.FoldAndCount(old(View()))
    {
      var interim: Option<Tuple> := None;
      if state == BusyInterim {
        interim := Some(residue[cnt]);
        cnt := cnt + 1;
      }
      FinalizeHistory(interim);
      if interim.Some? {
        CycleFind();
      }
    }

    /** The turning-point part of `RFC_feed_finalize`: resolve the delay stage and store the margins. */
    method FinalizeHistory(interim: Option<Tuple>)
      requires HistoryFits(View(), interim)
      modifies this`tp
      ensures View() == RfcPipeline.FinalizeHistory(old(View()), interim)
    {
      if cfg.flags.enforceMargin && tp.hasHistory && !tp.locked {
        var pending: Option<Tuple> := None;
        if internal.margin0.pos > 0 {
          if interim.Some? {
            TpAdd(Some(internal.delayed));
            pending := interim;
          } else {
            pending := Some(internal.delayed);
          }
        }
        if internal.margin1.pos > 1 {
          if pending.value.value == internal.margin1.value && pending.value.pos > 1 {
            TpAdd(Some(internal.margin1));
          } else {
            TpAdd(pending);
            TpAdd(Some(internal.margin1));
          }
        } else {
          TpAdd(pending);
        }
      } else {
        TpAdd(interim);
      }
    }

    /** The HCM part of `RFC_feed_finalize`: copy the stack into the residue and empty the stack. */
    method MoveStack()
      requires Valid() && Sized(View()) && cfg.counting == Hcm && iz > 0 && stack.Length <= residue.Length
      modifies this`cnt, this`iz, this`ir, residue
      ensures View() == RfcPipeline.MoveStack(old(View()))
    {
      ghost var r := RfcPipeline.MoveStack(View());
      var n := iz;
      assert n <= stack.Length <= residue.Length;
      CopyStack(n);
      assert residue[..] == r.res;
      cnt := n;
      iz, ir := 0, 1;
    }

    /** The copy of `RFC_feed_finalize`: the first `n` stack points overwrite the first `n` residue slots. */
    method CopyStack(n: nat)
      requires Valid() && n <= stack.Length <= residue.Length
      modifies residue
      ensures residue[..] == stack[..n] + old(residue[n..])
    {
      ghost var r0 := residue[..];
      var i := 0;
      while i < n
        invariant i <= n && residue[..] == stack[..i] + r0[i..]
      {
        residue[i] := stack[i];
        i := i + 1;
        assert residue[..] == stack[..i] + r0[i..];
      }
    }

    // -------------------------------------------------------------------
    // Residue strategies and RFC_finalize
    // -------------------------------------------------------------------

    /** `RFC_finalize_res_ignore`. */
    method Ignore() returns (ok: bool)
      requires Valid() && FeedFinalizeFits(View())
      modifies this, residue, stack, matrix, rp, lc
      ensures (View(), ok) == RfcPipeline.Ignore(old(View()))
    {
      ok := FeedFinalize();
    }

    /** `RFC_finalize_res_discard`. */
    method Discard() returns (ok: bool)
      requires Valid() && FeedFinalizeFits(View())
      modifies this, residue, stack, matrix, rp, lc
      ensures (View(), ok) == RfcPipeline.Discard(old(View()))
    {
      ok := FeedFinalize();
      if ok {
        cnt := 0;
      }
    }

    /** `RFC_finalize_res_weight_cycles`: count the adjacent pairs of the residue at `weight`. */
    method WeightCycles(weight: nat) returns (ok: bool)
      requires Valid() && WeightFits(View(), weight)
      modifies this, residue, stack, matrix, rp, lc
      ensures (View(), ok) == RfcPipeline.WeightCycles(old(View()), weight)
    {
      var oldInc := currInc;
      ok := FeedFinalize();
      if !ok {
        return;
      }
      if cnt >= 2 {
        currInc := weight;
        CountPairs();
        currInc := oldInc;
      }
      cnt := 0;
    }

    /** The loop of `RFC_finalize_res_weight_cycles`: every confirmed point with its successor, left to right. */
    method CountPairs()
      requires Valid() && cnt <= residue.Length && ProcessAllFits(View(), Pairs(residue[..cnt]))
      modifies this`damage, matrix, rp, lc
      ensures View() == ProcessAll(old(View()), Pairs(residue[..cnt]))
    {
      ghost var ps := Pairs(residue[..cnt]);
      ghost var goal := ProcessAll(View(), ps);
      var i := 0;
      while i + 1 < cnt
        invariant i <= |ps| && ProcessAllFits(View(), ps[i..]) && ProcessAll(View(), ps[i..]) == goal
      {
        assert ps[i] == Cycle(residue[i], residue[i + 1]) && ps[i..] == [ps[i]] + ps[i + 1..];
        ProcessAllCons(View(), ps[i], ps[i + 1..]);
        CycleProcess(residue[i], residue[i + 1]);
        i := i + 1;
      }
      assert ps[i..] == [];
    }

    /** `RFC_finalize_res_repeated`, corrected: feed the residue again, then always finalise. */
    method Repeated() returns (ok: bool)
      requires Valid() && RepeatedFits(View())
      modifies this, residue, stack, matrix, rp, lc
      ensures (View(), ok) == RfcPipeline.Repeated(old(View()))
    {
      if cnt > 0 {
        var copy := residue[..cnt + (if state == BusyInterim then 1 else 0)];
        assert copy == Replay(View());
        ok := FeedTuple(copy);
      }
      ok := FeedFinalize();
      if ok {
        cnt := 0;
      }
    }

    /** `RFC_finalize`: run the residue strategy `m`, then enter FINISHED, or ERROR if it failed. */
    method Finalize(m: ResidualMethod) returns (ok: bool)
      requires Valid() && Rank(state) < Rank(RfcTypes.Finalize) && FinalizeFits(View(), m)
      modifies this, residue, stack, matrix, rp, lc
      ensures (View(), ok) == Finish(old(View()), m)
    {
      match m {
        case ResNone => ok := Ignore();
        case ResIgnore => ok := Ignore();
        case ResDiscard => ok := Discard();
        case ResHalfCycles => ok := WeightCycles(cfg.halfInc);
        case ResFullCycles => ok := WeightCycles(cfg.fullInc);
        case ResRepeated => ok := Repeated();
        case ResUnknown =>
          error := InvalidArgument;
          ok := false;
      }
      state := if ok then Finished else Error;
    }
  

    // -------------------------------------------------------------------
    // RFC_lc_from_matrix, RFC_rp_from_matrix
    // -------------------------------------------------------------------

    /**
     * `RFC_lc_from_matrix`, corrected: level `i` receives the cycles from
     * class `i` or below to a class above it (rising, when counted) and the
     * reverse (falling); a level past the buffer goes to its last counter.
     */
    method LcFromMatrix(buffer: array<nat>)
      requires Valid() && buffer != matrix && Square(matrix[..], cfg.count)
      modifies buffer
      ensures buffer[..] == LcFill(old(buffer[..]), matrix[..], cfg.count, cfg.flags.countLcUp, cfg.flags.countLcDn, cfg.count)
    {
      var maxcnt := buffer.Length;
      if maxcnt == 0 {
        return;
      }
      var i := 0;
      while i < cfg.count
        invariant i <= cfg.count
        invariant buffer[..] == LcFill(old(buffer[..]), matrix[..], cfg.count, cfg.flags.countLcUp, cfg.flags.countLcDn, i)
      {
        var counts := LcLevel(i);
        buffer[LcSlot(i, maxcnt)] := counts;
        i := i + 1;
      }
    }

    /** The count of one level: rows above `i`, columns up to `i`, in the order of the source's loops. */
    method LcLevel(i: nat) returns (counts: nat)
      requires Square(matrix[..], cfg.count) && i < cfg.count
      ensures counts == LcCorrected(matrix[..], cfg.count, cfg.flags.countLcUp, cfg.flags.countLcDn, i)
    {
      var n, up, dn := cfg.count, cfg.flags.countLcUp, cfg.flags.countLcDn;
      counts := 0;
      var j := i + 1;
      while j < n
        invariant i + 1 <= j <= n
        invariant counts == RectSum(matrix[..], n, up, dn, i + 1, j, i + 1)
      {
        var k := 0;
        while k <= i
          invariant k <= i + 1
          invariant counts == RectSum(matrix[..], n, up, dn, i + 1, j, i + 1) + RowSum(matrix[..], n, up, dn, j, k)
        {
          if up {
            counts := counts + matrix[Cell(n, k, j)];
          }
          if dn {
            counts := counts + matrix[Cell(n, j, k)];
          }
          k := k + 1;
        }
        j := j + 1;
      }
    }

    /**
     * `RFC_rp_from_matrix`, corrected: range `d` receives the cycles whose
     * classes are `d` apart, in either direction; range 0 is 0.
     */
    method RpFromMatrix(buffer: array<nat>)
      requires Valid() && buffer != matrix && Square(matrix[..], cfg.count) && 0 < buffer.Length && cfg.count <= buffer.Length
      modifies buffer
      ensures buffer[0] == 0
      ensures forall d :: 0 <= d < cfg.count ==> buffer[d] == RpCorrected(matrix[..], cfg.count, d)
      ensures forall d :: cfg.count <= d < buffer.Length && 0 < d ==> buffer[d] == old(buffer[d])
    {
      var n := cfg.count;
      buffer[0] := 0;
      var d := 1;
      while d < n
        invariant 1 <= d && (d <= n || d == 1)
        invariant buffer[0] == 0
        invariant forall e :: 0 <= e < d && e < n ==> buffer[e] == RpCorrected(matrix[..], n, e)
        invariant forall e :: d <= e < buffer.Length && 0 < e ==> buffer[e] == old(buffer[e])
      {
        var counts := 0;
        var i := 0;
        while i < n - d
          invariant i <= n - d && counts == DiagSum(matrix[..], n, d, i)
        {
          counts := counts + matrix[Cell(n, i, i + d)] + matrix[Cell(n, i + d, i)];
          i := i + 1;
        }
        buffer[d] := counts;
        d := d + 1;
      }
    }
  }
}
