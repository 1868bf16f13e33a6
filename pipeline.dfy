/**
 * The session life cycle over the value model: initialisation and reset,
 * feeding samples and tuples, the turning-point history, the dispatch to
 * the counting engine, and end-of-stream finalisation with its residue
 * strategies.
 */
module RfcPipeline {
  import opened RfcTypes
  import opened RfcSession
  import opened RfcFilter
  import opened RfcEngines

  // ---------------------------------------------------------------------
  // Turning-point history (RFC_tp_add, RFC_tp_lock)
  // ---------------------------------------------------------------------

  /** The history accepts points: it was requested at initialisation and is not locked. */
  predicate Recording(s: Session)
  {
    s.hasHistory && !s.locked
  }

  /** `RFC_tp_add`: append a turning point to the history while it is recording. */
  function TpAdd(s: Session, tp: Option<Tuple>): (r: Session)
    ensures r == s.(tp := s.tp.(history := r.history))
    ensures |r.history| == |s.history| + (if tp.Some? && Recording(s) then 1 else 0)
    ensures r.history[..|s.history|] == s.history
    ensures |r.history| > |s.history| ==> r.history[|s.history|] == tp.value
  {
    if tp.Some? && Recording(s) then s.(tp := s.tp.(history := s.history + [tp.value])) else s
  }

  /** `RFC_tp_lock`: lock or unlock the history. */
  function TpLock(s: Session, lock: bool): (r: Session)
    ensures r == s.(tp := s.tp.(locked := lock))
  {
    s.(tp := s.tp.(locked := lock))
  }

  /** Once locked, the history no longer grows. */
  lemma TpAddAfterLock(s: Session, tp: Option<Tuple>)
    ensures TpAdd(TpLock(s, true), tp) == TpLock(s, true)
  {
  }

  // ---------------------------------------------------------------------
  // RFC_cycle_find
  // ---------------------------------------------------------------------

  /** The selected engine may run within its asserts. */
  predicate CycleFindFits(s: Session)
  {
    Sized(s) &&
    match s.counting
    case NoCounting => RemoveFits(s, 0, s.cnt)
    case FourPoint => Find4Fits(s)
    case Hcm => HcmFits(s, Local(s))
  }

  /** Without a counting method every confirmed point is removed; only the interim point is left, at the front. */
  function DropConfirmed(s: Session): (r: Session)
    requires Sized(s) && RemoveFits(s, 0, s.cnt)
    ensures Sized(r) && r == s.(res := r.res, cnt := 0) && |r.res| == |s.res|
    ensures s.state == BusyInterim ==> r.res[0] == s.res[s.cnt]
  {
    RemoveItemEffect(s, 0, s.cnt);
    RemoveItem(s, 0, s.cnt)
  }

  /**
   * `RFC_cycle_find`: run the selected engine. Without counting the
   * confirmed points are simply dropped; the 4-point method leaves no
   * closable quadruple at the end; HCM drains the residue into its stack.
   */
  function CycleFind(s: Session): (r: Session)
    requires CycleFindFits(s)
    ensures Sized(r) && CountsOnly(s, r) && |r.res| == |s.res| && |r.stack| == |s.stack| && r.cnt <= s.cnt
    ensures s.counting != FourPoint ==> r.cnt == 0
    ensures s.counting == FourPoint ==> !Closable4(r)
    ensures s.state == BusyInterim && s.counting != FourPoint ==> r.res[0] == s.res[s.cnt]
  {
    match s.counting
    case NoCounting => DropConfirmed(s)
    case FourPoint => Find4(s)
    case Hcm => HcmFind(s)
  }

  /** The engines keep the session invariant. */
  lemma CycleFindWf(s: Session)
    requires CycleFindFits(s) && Wf(s)
    ensures Wf(CycleFind(s))
  {
  }

  // ---------------------------------------------------------------------
  // RFC_feed_once
  // ---------------------------------------------------------------------

  /** The delay stage is active: margins are enforced and the history is recording. */
  predicate Delaying(s: Session)
  {
    s.flags.enforceMargin && Recording(s)
  }

  /**
   * The delay stage of `RFC_feed_once`: with margins enforced, the first
   * sample is kept as left margin and delayed point, later samples become
   * the right margin, and each turning point found is held back one step
   * (a point equal in value to the one held back is dropped). The point
   * the stage lets through is returned.
   */
  function Delay(s: Session, pt: Tuple, found: Option<Tuple>): (r: (Session, Option<Tuple>))
    ensures r.0 == s.(internal := s.internal.(margin0 := r.0.margin0, margin1 := r.0.margin1, delayed := r.0.delayed))
    ensures !Delaying(s) ==> r == (s, found)
    ensures Delaying(s) && pt.pos == 1 ==> r.1 == None && r.0.margin0 == pt && r.0.delayed == pt
    ensures Delaying(s) && pt.pos > 1 ==> r.0.margin1 == pt
    ensures Delaying(s) && pt.pos > 1 && found.Some? && found.value.value != s.delayed.value ==>
              r.1 == Some(s.delayed) && r.0.delayed == found.value
    ensures Delaying(s) && pt.pos > 1 && (found.None? || found.value.value == s.delayed.value) ==>
              r.1 == None && r.0.delayed == s.delayed
  {
    if Delaying(s) then
      var s1 := if pt.pos == 1 then s.(internal := s.internal.(margin0 := pt, delayed := pt)) else s;
      var pass := if pt.pos == 1 then None
                  else if found.Some? && s.delayed.value == found.value.value then None
                  else found;
      var s2 := if pt.pos > 1 then s1.(internal := s1.internal.(margin1 := pt)) else s1;
      if pass.Some? then (s2.(internal := s2.internal.(delayed := pass.value)), Some(s2.delayed)) else (s2, None)
    else
      (s, found)
  }

  /** `RFC_feed_once` stays within the asserts of the filter and of the engine. */
  predicate FeedOnceFits(s: Session, pt: Tuple)
  {
    TpNextFits(s, pt) &&
    var n := TpNext(s, pt);
    var d := Delay(n.0, pt, n.1);
    d.1.Some? ==> CycleFindFits(TpAdd(d.0, d.1))
  }

  /**
   * `RFC_feed_once`: filter one sample; a turning point that passes the
   * delay stage is added to the history and triggers the engine.
   */
  function FeedOnce(s: Session, pt: Tuple): (r: Session)
    requires FeedOnceFits(s, pt)
    ensures Wf(r) && r.state in {Busy, BusyInterim}
    ensures r.pos == s.pos
  {
    var n := TpNext(s, pt);
    var d := Delay(n.0, pt, n.1);
    if d.1.Some? then CycleFindWf(TpAdd(d.0, d.1)); CycleFind(TpAdd(d.0, d.1)) else d.0
  }

  // ---------------------------------------------------------------------
  // RFC_feed, RFC_feed_tuple
  // ---------------------------------------------------------------------

  /** The states in which feeding is accepted: from INIT up to, not including, FINISHED. */
  predicate Feedable(s: Session)
  {
    Rank(Init) <= Rank(s.state) < Rank(Finished)
  }

  /** A raw sample as `RFC_feed` stamps it: its class and the next stream position. */
  function Stamp(s: Session, v: int): (pt: Tuple)
    requires s.width > 0 && v >= s.offset
    ensures pt.value == v && pt.pos == s.pos + 1
    ensures pt.cls * s.width <= v - s.offset < pt.cls * s.width + s.width
  {
    Tuple(v, Quantize(s.offset, s.width, v), s.pos + 1)
  }

  /** Every sample may be stamped and fed within the asserts. */
  predicate FeedSamplesFits(s: Session, data: seq<int>)
    decreases |data|
  {
    |data| > 0 ==>
      && s.width > 0 && data[0] >= s.offset
      && var pt := Stamp(s, data[0]);
         && FeedOnceFits(s.(internal := s.internal.(pos := pt.pos)), pt)
         && FeedSamplesFits(FeedOnce(s.(internal := s.internal.(pos := pt.pos)), pt), data[1..])
  }

  /** The loop of `RFC_feed`: stamp and feed each sample in turn. */
  function FeedSamples(s: Session, data: seq<int>): (r: Session)
    requires FeedSamplesFits(s, data)
    ensures r.pos == s.pos + |data|
    ensures |data| > 0 ==> Wf(r) && r.state in {Busy, BusyInterim}
    decreases |data|
  {
    if |data| == 0 then s
    else
      var pt := Stamp(s, data[0]);
      FeedSamples(FeedOnce(s.(internal := s.internal.(pos := pt.pos)), pt), data[1..])
  }

  /** Feeding samples is feeding the first one, stamped, then the rest. */
  lemma FeedSamplesCons(s: Session, data: seq<int>) returns (t: Session)
    requires FeedSamplesFits(s, data) && |data| > 0
    ensures s.width > 0 && data[0] >= s.offset
    ensures var pt := Stamp(s, data[0]);
            && FeedOnceFits(s.(internal := s.internal.(pos := pt.pos)), pt)
            && t == FeedOnce(s.(internal := s.internal.(pos := pt.pos)), pt)
    ensures FeedSamplesFits(t, data[1..]) && FeedSamples(s, data) == FeedSamples(t, data[1..])
  {
    var pt := Stamp(s, data[0]);
    t := FeedOnce(s.(internal := s.internal.(pos := pt.pos)), pt);
  }

  /** Feeding two chunks one after the other is feeding them in one call. */
  lemma {:induction false} FeedSamplesAppend(s: Session, xs: seq<int>, ys: seq<int>)
    requires FeedSamplesFits(s, xs)
    ensures FeedSamplesFits(s, xs + ys) <==> FeedSamplesFits(FeedSamples(s, xs), ys)
    ensures FeedSamplesFits(s, xs + ys) ==> FeedSamples(s, xs + ys) == FeedSamples(FeedSamples(s, xs), ys)
    decreases |xs|
  {
    if |xs| == 0 {
      assert xs + ys == ys;
    } else {
      var pt := Stamp(s, xs[0]);
      assert (xs + ys)[0] == xs[0];
      assert (xs + ys)[1..] == xs[1..] + ys;
      FeedSamplesAppend(FeedOnce(s.(internal := s.internal.(pos := pt.pos)), pt), xs[1..], ys);
    }
  }

  /** `RFC_feed` may run: refused states are harmless, accepted ones need the samples to fit. */
  predicate FeedFits(s: Session, data: seq<int>)
  {
    Feedable(s) ==> FeedSamplesFits(s, data)
  }

  /** `RFC_feed`: refuse outside `[INIT, FINISHED)`, otherwise feed every sample. */
  function Feed(s: Session, data: seq<int>): (r: (Session, bool))
    requires FeedFits(s, data)
    ensures r.1 <==> Feedable(s)
    ensures !r.1 ==> r.0 == s
    ensures r.1 ==> r.0.pos == s.pos + |data|
  {
    if !Feedable(s) then (s, false) else (FeedSamples(s, data), true)
  }

  /** Every tuple may be fed within the asserts. */
  predicate FeedTuplesFits(s: Session, data: seq<Tuple>)
    decreases |data|
  {
    |data| > 0 ==> FeedOnceFits(s, data[0]) && FeedTuplesFits(FeedOnce(s, data[0]), data[1..])
  }

  /** The loop of `RFC_feed_tuple`: feed each tuple as given. */
  function FeedTuples(s: Session, data: seq<Tuple>): (r: Session)
    requires FeedTuplesFits(s, data)
    ensures r.pos == s.pos
    ensures |data| > 0 ==> Wf(r) && r.state in {Busy, BusyInterim}
    decreases |data|
  {
    if |data| == 0 then s else FeedTuples(FeedOnce(s, data[0]), data[1..])
  }

  predicate FeedTupleFits(s: Session, data: seq<Tuple>)
  {
    Feedable(s) ==> FeedTuplesFits(s, data)
  }

  /** `RFC_feed_tuple`: like `RFC_feed`, for tuples that already carry class and position. */
  function FeedTuple(s: Session, data: seq<Tuple>): (r: (Session, bool))
    requires FeedTupleFits(s, data)
    ensures r.1 <==> Feedable(s)
    ensures !r.1 ==> r.0 == s
    ensures r.0.pos == s.pos
  {
    if !Feedable(s) then (s, false) else (FeedTuples(s, data), true)
  }

  /** Feeding a raw sample is feeding the tuple it is stamped into. */
  lemma FeedIsStampedTuple(s: Session, v: int)
    requires Feedable(s) && FeedFits(s, [v])
    ensures var pt := Stamp(s, v);
            FeedTupleFits(s.(internal := s.internal.(pos := pt.pos)), [pt])
            && Feed(s, [v]) == FeedTuple(s.(internal := s.internal.(pos := pt.pos)), [pt])
  {
    var pt := Stamp(s, v);
    var t := s.(internal := s.internal.(pos := pt.pos));
    assert Feedable(t);
    assert [v][1..] == [] && [pt][1..] == [];
    assert FeedSamples(s, [v]) == FeedSamples(FeedOnce(t, pt), []);
    assert FeedTuples(t, [pt]) == FeedTuples(FeedOnce(t, pt), []);
  }

  // ---------------------------------------------------------------------
  // RFC_feed_finalize
  // ---------------------------------------------------------------------

  /** The interim point, if the session has one. */
  function Interim(s: Session): (p: Option<Tuple>)
    requires s.state == BusyInterim ==> s.cnt < |s.res|
    ensures p.Some? <==> s.state == BusyInterim
  {
    if s.state == BusyInterim then Some(s.res[s.cnt]) else None
  }

  /** Take the interim point into the confirmed points (the state is left as it is). */
  function Fold(s: Session): (r: Session)
    requires Sized(s) && (s.state == BusyInterim ==> s.cnt < |s.res|)
    ensures r == s.(cnt := r.cnt) && r.cnt <= |r.res|
    ensures Confirmed(r) == Confirmed(s) + (if s.state == BusyInterim then [s.res[s.cnt]] else [])
  {
    var r := s.(cnt := s.cnt + InterimSlot(s));
    assert Confirmed(r) == Confirmed(s) + (if s.state == BusyInterim then [s.res[s.cnt]] else []);
    r
  }

  /** The point the history still owes at the end, with margins enforced. */
  function Pending(s: Session, interim: Option<Tuple>): Option<Tuple>
  {
    if s.margin0.pos > 0 then (if interim.Some? then interim else Some(s.delayed)) else None
  }

  /** The assert before the right margin is stored (rainflow.c:727). */
  predicate HistoryFits(s: Session, interim: Option<Tuple>)
  {
    Delaying(s) && s.margin1.pos > 1 ==> Pending(s, interim).Some?
  }

  /**
   * The end of the history: with margins enforced, resolve the delay stage
   * and store the right margin (which replaces a pending point of equal
   * value); otherwise store the interim point.
   */
  function FinalizeHistory(s: Session, interim: Option<Tuple>): (r: Session)
    requires HistoryFits(s, interim)
    ensures r == s.(tp := s.tp.(history := r.history))
    ensures |r.history| >= |s.history| && r.history[..|s.history|] == s.history
    ensures !Delaying(s) ==> r == TpAdd(s, interim)
    ensures !Recording(s) ==> r == s
    // with margins enforced, the delayed point goes first when an interim point exists
    ensures Delaying(s) && s.margin0.pos > 0 && interim.Some? ==>
              |r.history| > |s.history| && r.history[|s.history|] == s.delayed
    // a right margin past the first sample always ends the history, and it replaces the pending
    // point exactly when their values are equal and the pending point is not the first sample
    ensures Delaying(s) && s.margin1.pos > 1 ==>
              var k := |s.history| + (if s.margin0.pos > 0 && interim.Some? then 1 else 0);
              var p := Pending(s, interim).value;
              && (|r.history| == k + 1 || (|r.history| == k + 2 && r.history[k] == p))
              && r.history[|r.history| - 1] == s.margin1
              && (|r.history| == k + 1 <==> p.value == s.margin1.value && p.pos > 1)
    // without a right margin the pending point, if any, is the last point stored
    ensures Delaying(s) && s.margin1.pos <= 1 ==>
              var k := |s.history| + (if s.margin0.pos > 0 && interim.Some? then 1 else 0);
              k <= |r.history| && r.history[k..] == if Pending(s, interim).Some? then [Pending(s, interim).value] else []
  {
    if Delaying(s) then
      var s1 := if s.margin0.pos > 0 && interim.Some? then TpAdd(s, Some(s.delayed)) else s;
      var p := Pending(s, interim);
      if s.margin1.pos > 1 then
        if p.value.value == s.margin1.value && p.value.pos > 1 then TpAdd(s1, Some(s.margin1))
        else TpAdd(TpAdd(s1, p), Some(s.margin1))
      else
        TpAdd(s1, p)
    else
      TpAdd(s, interim)
  }

  /** The residue after the engine has seen the folded interim point. */
  function FoldAndCount(s: Session): (r: Session)
    requires Wf(s) && HistoryFits(s, Interim(s))
    requires s.state == BusyInterim ==> CycleFindFits(FinalizeHistory(Fold(s), Interim(s)))
    ensures Sized(r) && |r.res| == |s.res| && |r.stack| == |s.stack| && r.counting == s.counting
  {
    var f := FinalizeHistory(Fold(s), Interim(s));
    if s.state == BusyInterim then CycleFind(f) else f
  }

  /** What `RFC_feed_finalize` needs when it goes ahead. */
  predicate FeedFinalizeFits(s: Session)
  {
    Rank(s.state) < Rank(Finalize) ==>
      && Wf(s) && HistoryFits(s, Interim(s))
      && (s.state == BusyInterim ==> CycleFindFits(FinalizeHistory(Fold(s), Interim(s))))
      && (s.counting == Hcm ==> |s.stack| <= |s.res|)
  }

  /**
   * Move the HCM stack into the residue and empty the stack (HCM only,
   * non-empty stack): the points on the stack become the confirmed points.
   */
  function MoveStack(s: Session): (r: Session)
    requires Sized(s) && (s.counting == Hcm ==> |s.stack| <= |s.res|)
    ensures Sized(r) && |r.res| == |s.res|
    ensures s.counting == Hcm && s.iz > 0 ==>
              && r == s.(res := r.res, cnt := s.iz, hcm := s.hcm.(iz := 0, ir := 1))
              && Confirmed(r) == s.stack[..s.iz] && r.res[s.iz..] == s.res[s.iz..]
    ensures !(s.counting == Hcm && s.iz > 0) ==> r == s
  {
    if s.counting == Hcm && s.iz > 0 then
      var r := s.(res := s.stack[..s.iz] + s.res[s.iz..], cnt := s.iz, hcm := s.hcm.(iz := 0, ir := 1));
      assert Confirmed(r) == s.stack[..s.iz];
      r
    else s
  }

  /**
   * `RFC_feed_finalize`: refuse from FINALIZE on; otherwise fold in the
   * interim point, finish the history, count once more if there was an
   * interim point, lock the history, move the HCM stack into the residue
   * and enter FINALIZE.
   */
  function FeedFinalize(s: Session): (r: (Session, bool))
    requires FeedFinalizeFits(s)
    ensures r.1 <==> Rank(s.state) < Rank(Finalize)
    ensures !r.1 ==> r.0 == s
    ensures r.1 ==> r.0.state == Finalize && r.0.locked && Wf(r.0) && InterimSlot(r.0) == 0
    ensures r.1 ==> r.0.currInc == s.currInc && r.0.pos == s.pos
  {
    if Rank(s.state) >= Rank(Finalize) then (s, false)
    else
      var c := FoldAndCount(s);
      (MoveStack(TpLock(c, true)).(state := Finalize), true)
  }

  /**
   * The final search runs while the state is still BUSY_INTERIM, after the
   * interim point has been folded in, so the engines count one more slot
   * than the residue holds when the interim point sat in its last slot.
   * Without counting and with HCM that slot is always read, so a full
   * residue cannot be finalised within the asserts.
   */
  lemma FullResidueOverruns(s: Session)
    requires Wf(s) && s.state == BusyInterim && s.cnt + 1 == |s.res|
    requires s.counting != FourPoint
    ensures ResidueEnd(Fold(s)) == |s.res| + 1
    ensures !FeedFinalizeFits(s)
  {
    if HistoryFits(s, Interim(s)) {
      var f := FinalizeHistory(Fold(s), Interim(s));
      assert f.res == s.res && f.state == BusyInterim && f.cnt == |s.res|;
      assert ResidueEnd(f) > |f.res|;
    }
  }

  /** With no engine run and no HCM stack, the interim point ends up confirmed, exactly once. */
  lemma FeedFinalizeFoldsOnce(s: Session)
    requires FeedFinalizeFits(s) && s.state == BusyInterim
    requires s.counting == FourPoint && !Closable4(Fold(s))
    ensures var r := FeedFinalize(s).0;
            Confirmed(r) == Confirmed(s) + [s.res[s.cnt]] && r.state == Finalize
  {
  }

  /** Without margins, the interim point is the last point the history receives. */
  lemma FeedFinalizeHistory(s: Session)
    requires FeedFinalizeFits(s) && Rank(s.state) < Rank(Finalize) && !Delaying(s)
    ensures var r := FeedFinalize(s).0;
            r.history == s.history + (if s.state == BusyInterim && Recording(s) then [s.res[s.cnt]] else [])
  {
  }

  // ---------------------------------------------------------------------
  // Residue strategies
  // ---------------------------------------------------------------------

  /** `RFC_finalize_res_ignore`: finalise and leave the residue as it is. */
  function Ignore(s: Session): (r: (Session, bool))
    requires FeedFinalizeFits(s)
    ensures r == FeedFinalize(s)
  {
    FeedFinalize(s)
  }

  /** `RFC_finalize_res_discard`: finalise and empty the residue. */
  function Discard(s: Session): (r: (Session, bool))
    requires FeedFinalizeFits(s)
    ensures r.1 == FeedFinalize(s).1
    ensures r.1 ==> r.0 == FeedFinalize(s).0.(cnt := 0)
  {
    var f := FeedFinalize(s);
    if f.1 then (f.0.(cnt := 0), true) else f
  }

  /** The adjacent pairs of a sequence of points, left to right. */
  function Pairs(ps: seq<Tuple>): (cs: seq<Cycle>)
    ensures |cs| == if |ps| < 2 then 0 else |ps| - 1
    ensures forall i :: 0 <= i < |cs| ==> cs[i] == Cycle(ps[i], ps[i + 1])
  {
    if |ps| < 2 then [] else [Cycle(ps[0], ps[1])] + Pairs(ps[1..])
  }

  /** The confirmed points after finalisation, counted pairwise at `weight`, fit the asserts. */
  predicate WeightFits(s: Session, weight: nat)
  {
    && FeedFinalizeFits(s)
    && (Rank(s.state) < Rank(Finalize) ==>
          var f := FeedFinalize(s).0;
          f.cnt >= 2 ==> ProcessAllFits(f.(currInc := weight), Pairs(Confirmed(f))))
  }

  /**
   * `RFC_finalize_res_weight_cycles`: finalise, count every adjacent pair
   * of the residue left to right at `weight`, restore the increment and
   * empty the residue.
   */
  function WeightCycles(s: Session, weight: nat): (r: (Session, bool))
    requires WeightFits(s, weight)
    ensures r.1 == FeedFinalize(s).1
    ensures r.1 ==> r.0.cnt == 0 && r.0.currInc == s.currInc && r.0.state == Finalize
    ensures r.1 ==> var f := FeedFinalize(s).0;
                    f.cnt >= 2 ==> r.0 == ProcessAll(f.(currInc := weight), Pairs(Confirmed(f))).(currInc := s.currInc, cnt := 0)
    ensures r.1 ==> var f := FeedFinalize(s).0;
                    f.cnt < 2 ==> r.0 == f.(cnt := 0)
  {
    var f := FeedFinalize(s);
    if !f.1 then f
    else
      var g := if f.0.cnt >= 2
               then ProcessAll(f.0.(currInc := weight), Pairs(Confirmed(f.0))).(currInc := s.currInc)
               else f.0;
      (g.(cnt := 0), true)
  }

  /** The slots the repeated-residue strategy feeds again: the confirmed points and the interim one. */
  function Replay(s: Session): (r: seq<Tuple>)
    requires ResidueEnd(s) <= |s.res|
    ensures r == Confirmed(s) + (if s.state == BusyInterim then [s.res[s.cnt]] else [])
  {
    var r := s.res[..ResidueEnd(s)];
    assert r == Confirmed(s) + (if s.state == BusyInterim then [s.res[s.cnt]] else []);
    r
  }

  /** The strategy as written feeds the residue again and finalises, only if the residue is not empty. */
  predicate RepeatedAsWrittenFits(s: Session)
  {
    && Wf(s) && ResidueEnd(s) <= |s.res|
    && (s.cnt > 0 ==> FeedTupleFits(s, Replay(s)) && FeedFinalizeFits(FeedTuple(s, Replay(s)).0))
  }

  /**
   * `RFC_finalize_res_repeated` as written: with a non-empty residue it
   * feeds the residue again and finalises; with an empty residue it only
   * sets the count to 0, skipping `RFC_feed_finalize`.
   */
  function RepeatedAsWritten(s: Session): (r: (Session, bool))
    requires RepeatedAsWrittenFits(s)
    ensures r.1 ==> r.0.cnt == 0
    ensures s.cnt == 0 ==> r == (s, true)
  {
    if s.cnt > 0 then
      var f := FeedFinalize(FeedTuple(s, Replay(s)).0);
      if f.1 then (f.0.(cnt := 0), true) else f
    else
      (s.(cnt := 0), true)
  }

  /** Before FINALIZE with an empty residue, the strategy as written never reaches FINALIZE. */
  lemma RepeatedAsWrittenSkipsFinalize(s: Session)
    requires RepeatedAsWrittenFits(s) && s.cnt == 0 && Rank(s.state) < Rank(Finalize)
    ensures RepeatedAsWritten(s).0.state != Finalize
    ensures RepeatedAsWritten(s).0.locked == s.locked
  {
  }

  /** The corrected strategy: feed a non-empty residue again, then always finalise. */
  predicate RepeatedFits(s: Session)
  {
    && Wf(s) && ResidueEnd(s) <= |s.res|
    && (s.cnt > 0 ==> FeedTupleFits(s, Replay(s)))
    && FeedFinalizeFits(if s.cnt > 0 then FeedTuple(s, Replay(s)).0 else s)
  }

  /** `RFC_finalize_res_repeated`, corrected: finalisation is not skipped for an empty residue. */
  function Repeated(s: Session): (r: (Session, bool))
    requires RepeatedFits(s)
    ensures r.1 ==> r.0.cnt == 0
    ensures Rank(s.state) < Rank(Finalize) ==> r.1 && r.0.state == Finalize && r.0.locked
  {
    var t := if s.cnt > 0 then FeedTuple(s, Replay(s)).0 else s;
    var f := FeedFinalize(t);
    if f.1 then (f.0.(cnt := 0), true) else f
  }

  // ---------------------------------------------------------------------
  // RFC_finalize
  // ---------------------------------------------------------------------

  /** The strategy selected may run within its asserts. */
  predicate FinalizeFits(s: Session, m: ResidualMethod)
  {
    match m
    case ResNone => FeedFinalizeFits(s)
    case ResIgnore => FeedFinalizeFits(s)
    case ResDiscard => FeedFinalizeFits(s)
    case ResHalfCycles => WeightFits(s, s.halfInc)
    case ResFullCycles => WeightFits(s, s.fullInc)
    case ResRepeated => RepeatedFits(s)
    case ResUnknown => true
  }

  /** The strategy a residual method selects, before `RFC_finalize` sets the final state. */
  function Strategy(s: Session, m: ResidualMethod): (r: (Session, bool))
    requires FinalizeFits(s, m)
    ensures Rank(s.state) < Rank(Finalize) && m != ResUnknown ==> r.1 && r.0.state == Finalize && r.0.locked
    ensures m == ResUnknown ==> !r.1 && r.0.error == InvalidArgument
  {
    match m
    case ResNone => Ignore(s)
    case ResIgnore => Ignore(s)
    case ResDiscard => Discard(s)
    case ResHalfCycles => WeightCycles(s, s.halfInc)
    case ResFullCycles => WeightCycles(s, s.fullInc)
    case ResRepeated => Repeated(s)
    case ResUnknown => (s.(error := InvalidArgument), false)
  }

  /**
   * `RFC_finalize`: run the selected residue strategy and end in FINISHED
   * on success, in ERROR otherwise; an unknown method is an invalid
   * argument.
   */
  function Finish(s: Session, m: ResidualMethod): (r: (Session, bool))
    requires Rank(s.state) < Rank(Finalize) && FinalizeFits(s, m)
    ensures r.0.state == if r.1 then Finished else Error
    ensures r.1 <==> m != ResUnknown
    ensures m == ResUnknown ==> r.0.error == InvalidArgument
    ensures r.1 && m in {ResDiscard, ResHalfCycles, ResFullCycles, ResRepeated} ==> r.0.cnt == 0
  {
    var t := Strategy(s, m);
    (t.0.(state := if t.1 then Finished else Error), t.1)
  }

  // ---------------------------------------------------------------------
  // RFC_init, RFC_reset
  // ---------------------------------------------------------------------

  function Zeros(n: nat): (z: seq<nat>)
    ensures |z| == n && forall i :: 0 <= i < n ==> z[i] == 0
  {
    seq(n, _ => 0)
  }

  function Nils(n: nat): (z: seq<Tuple>)
    ensures |z| == n && forall i :: 0 <= i < n ==> z[i] == Nil
  {
    seq(n, _ => Nil)
  }

  /** A zero-initialised context, before `RFC_init`: state INIT0, no buffers. */
  function Blank(damageOf: (nat, nat) -> real): (s: Session)
    ensures s.state == Init0 && s.res == [] && s.stack == [] && s.cnt == 0 && s.pos == 0 && s.history == []
  {
    Session(Config(0, 0, 0, 0, Flags(false, false, false, false, false), NoCounting, damageOf, 0, 0),
            0, Init0, NoError, [], 0, Internal(0, Nil, Nil, false, 0, Nil, Nil, Nil), HcmState([], 0, 0),
            Counters([], [], [], 0.0), TpStore([], false, false))
  }

  /** The class parameters `RFC_init` rejects. */
  predicate BadClasses(count: nat, width: int)
  {
    count == 0 || count > MAX_CLASS_COUNT || width <= 0
  }

  /**
   * `RFC_init`: only from INIT0; install the flags and increments; reject
   * bad class parameters; otherwise size the residue and the HCM stack to
   * 2·count, the matrix to count² and the histograms to count, all zeroed,
   * select the 4-point method and enter INIT.
   */
  function Initialize(s: Session, count: nat, width: int, offset: int, hysteresis: int, withHistory: bool)
    : (r: (Session, bool))
    ensures r.1 <==> s.state == Init0 && !BadClasses(count, width)
    ensures s.state != Init0 ==> r.0 == s
    ensures s.state == Init0 && BadClasses(count, width) ==>
              r.0.error == InvalidArgument && r.0.state == Init0
    ensures r.1 ==> Wf(r.0) && r.0.state == Init && r.0.cnt == 0 && r.0.counting == FourPoint
    ensures r.1 ==> |r.0.res| == 2 * count && |r.0.stack| == 2 * count
    ensures r.1 ==> r.0.matrix == Zeros(count * count) && r.0.rp == Zeros(count) && r.0.lc == Zeros(count)
    ensures r.1 ==> r.0.history == [] && r.0.hasHistory == withHistory && !r.0.locked
  {
    if s.state != Init0 then (s, false)
    else
      var t := s.(cfg := s.cfg.(flags := CountAll, fullInc := FULL_CYCLE_INCREMENT, halfInc := HALF_CYCLE_INCREMENT), currInc := FULL_CYCLE_INCREMENT);
      if BadClasses(count, width) then (t.(error := InvalidArgument), false)
      else
        (t.(cfg := t.cfg.(count := count, width := width, offset := offset, hysteresis := hysteresis, counting := FourPoint), cnt := 0, res := Nils(2 * count), counters := t.counters.(matrix := Zeros(count * count), rp := Zeros(count), lc := Zeros(count), damage := 0.0), internal := t.internal.(slope := 0, lo := Nil, hi := Nil, extremaChanged := false, delayed := Nil, margin0 := Nil, margin1 := Nil), tp := t.tp.(hasHistory := withHistory, history := [], locked := false), hcm := t.hcm.(iz := 0, ir := 1, stack := Nils(2 * count)), state := Init), true)
  }

  /**
   * `RFC_reset`: from INIT, zero the counters and the damage, empty the
   * residue, the history and the HCM stack, forget the filter state and
   * the stream position, and return to INIT0; the configuration stays.
   */
  function Reset(s: Session): (r: Session)
    requires Wf(s) && s.state == Init
    ensures Wf(r) && r.state == Init0
    ensures r.matrix == Zeros(s.count * s.count) && r.rp == Zeros(s.count) && r.lc == Zeros(s.count)
    ensures r.cnt == 0 && r.pos == 0 && r.history == [] && !r.locked && r.iz == 0 && r.ir == 1
    ensures r.count == s.count && r.width == s.width && r.offset == s.offset && r.hysteresis == s.hysteresis
  {
    s.(counters := s.counters.(matrix := Zeros(s.count * s.count), rp := Zeros(s.count), lc := Zeros(s.count), damage := 0.0), cnt := 0, internal := s.internal.(slope := 0, lo := Nil, hi := Nil, extremaChanged := false, pos := 0, margin0 := Nil, margin1 := Nil, delayed := Nil), tp := s.tp.(history := [], locked := false), hcm := s.hcm.(ir := 1, iz := 0), state := Init0)
  }

  /** A reset session can be initialised again with its old class parameters. */
  lemma ResetThenInit(s: Session, withHistory: bool)
    requires Wf(s) && s.state == Init
    ensures Initialize(Reset(s), s.count, s.width, s.offset, s.hysteresis, withHistory).1
  {
  }
}
