/**
 * Concrete runs of the counter: turning-point traces the source's own
 * tests check (rainflow.c:2111-2165), and the run that shows the
 * append guard of `RFC_tp_next` letting through a write past the residue.
 *
 * Values are fixed-point with two decimals: the tests' 1.0, 2.1 and
 * 1.98 are 100, 210 and 198; class width and hysteresis 1.0 are 100.
 */
module RfcTraces {
  import opened RfcTypes
  import opened RfcSession
  import opened RfcFilter
  import opened RfcEngines
  import opened RfcPipeline

  /** A feed step that does not reach the engine's closing test. */
  predicate QuietFits(s: Session, v: int)
  {
    && Wf(s) && s.state in {Init, Busy, BusyInterim} && s.hysteresis >= 0
    && s.counting == FourPoint && s.cnt < 3 && v >= s.offset
    && TpNextFits(s.(internal := s.internal.(pos := s.pos + 1)), Stamp(s, v))
  }

  /** Such a step of `RFC_feed` only filters the sample, delays it and records what passes. */
  lemma QuietFeedsOnce(s: Session, v: int)
    requires QuietFits(s, v)
    ensures var pt := Stamp(s, v);
            var n := TpNext(s.(internal := s.internal.(pos := pt.pos)), pt);
            var d := Delay(n.0, pt, n.1);
            FeedOnceFits(s.(internal := s.internal.(pos := pt.pos)), pt) && FeedOnce(s.(internal := s.internal.(pos := pt.pos)), pt) == TpAdd(d.0, d.1)
  {
    var pt := Stamp(s, v);
    var n := TpNext(s.(internal := s.internal.(pos := pt.pos)), pt);
    var d := Delay(n.0, pt, n.1);
    assert !Closable4(TpAdd(d.0, d.1));
  }

  /** One sample fed in such a step. */
  function Quiet(s: Session, v: int): (r: Session)
    requires QuietFits(s, v)
    ensures Wf(r) && r.state in {Busy, BusyInterim} && r.pos == s.pos + 1
  {
    QuietFeedsOnce(s, v);
    FeedOnce(s.(internal := s.internal.(pos := s.pos + 1)), Stamp(s, v))
  }

  /** Every sample of `xs` is such a step. */
  predicate QuietRunFits(s: Session, xs: seq<int>)
    decreases |xs|
  {
    |xs| > 0 ==> QuietFits(s, xs[0]) && QuietRunFits(Quiet(s, xs[0]), xs[1..])
  }

  function QuietRun(s: Session, xs: seq<int>): (r: Session)
    requires QuietRunFits(s, xs)
    ensures r.pos == s.pos + |xs|
    decreases |xs|
  {
    if |xs| == 0 then s else QuietRun(Quiet(s, xs[0]), xs[1..])
  }

  /** Feeding a run of such steps is filtering and recording them one by one. */
  lemma {:induction false} FeedRun(s: Session, xs: seq<int>)
    requires QuietRunFits(s, xs)
    ensures FeedSamplesFits(s, xs) && FeedSamples(s, xs) == QuietRun(s, xs)
    decreases |xs|
  {
    if |xs| > 0 {
      FeedRun(Quiet(s, xs[0]), xs[1..]);
    }
  }

  /** The first sample seeds both extrema. */
  lemma QuietFirst(s: Session, v: int)
    requires QuietFits(s, v) && !Delaying(s) && s.state == Init
    ensures Quiet(s, v) == s.(internal := s.internal.(lo := Stamp(s, v), hi := Stamp(s, v), pos := s.pos + 1), state := Busy)
  {
  }

  /** A startup sample between the extrema only advances the position. */
  lemma QuietInside(s: Session, v: int)
    requires QuietFits(s, v) && !Delaying(s) && s.state == Busy && s.lo.value <= v <= s.hi.value
    ensures Quiet(s, v) == s.(internal := s.internal.(pos := s.pos + 1))
  {
  }

  /** A rising startup sample within the hysteresis becomes the new maximum. */
  lemma QuietRise(s: Session, v: int)
    requires QuietFits(s, v) && !Delaying(s) && s.state == Busy
    requires v > s.hi.value && v - s.lo.value <= s.hysteresis
    ensures Quiet(s, v) == s.(internal := s.internal.(hi := Stamp(s, v), extremaChanged := true, pos := s.pos + 1))
  {
  }

  /** A rising startup sample beyond the hysteresis confirms the minimum and becomes the interim point. */
  lemma QuietRiseTurn(s: Session, v: int)
    requires QuietFits(s, v) && !Delaying(s) && s.state == Busy && Recording(s)
    requires v > s.hi.value && v - s.lo.value > s.hysteresis
    ensures var pt := Stamp(s, v);
            Quiet(s, v) == s.(res := s.res[s.cnt := s.lo][s.cnt + 1 := pt], cnt := s.cnt + 1, internal := s.internal.(slope := 1, hi := pt, extremaChanged := true, pos := s.pos + 1), state := BusyInterim, tp := s.tp.(history := s.history + [s.lo]))
  {
  }

  /** A reversal within the hysteresis only advances the position. */
  lemma QuietHold(s: Session, v: int)
    requires QuietFits(s, v) && !Delaying(s) && s.state == BusyInterim
    requires var d := ValueDelta(s.res[s.cnt].value, v); d.sign != s.slope && d.magnitude <= s.hysteresis
    ensures Quiet(s, v) == s.(internal := s.internal.(pos := s.pos + 1))
  {
  }

  /** A reversal beyond the hysteresis confirms the interim point and records it. */
  lemma QuietTurn(s: Session, v: int)
    requires QuietFits(s, v) && !Delaying(s) && s.state == BusyInterim && Recording(s)
    requires var d := ValueDelta(s.res[s.cnt].value, v); d.sign != s.slope && d.magnitude > s.hysteresis
    ensures Quiet(s, v) == s.(res := s.res[s.cnt + 1 := Stamp(s, v)], cnt := s.cnt + 1, internal := s.internal.(slope := ValueDelta(s.res[s.cnt].value, v).sign, pos := s.pos + 1), tp := s.tp.(history := s.history + [s.res[s.cnt]]))
  {
  }

  /** The session the tests start from: 10 classes of width 1.0 from 0, hysteresis 1.0, with history. */
  predicate TestSetup(s: Session)
  {
    && Wf(s) && s.state == Init && s.count == 10 && s.width == 100 && s.offset == 0
    && s.hysteresis == 100 && s.flags == CountAll && s.counting == FourPoint
    && s.cnt == 0 && |s.res| == 20 && s.hasHistory && !s.locked && s.history == [] && s.pos == 0
    && s.margin0 == Nil && s.margin1 == Nil
  }

  /** `RFC_init` with the tests' parameters yields that session. */
  lemma InitGivesTestSetup(s: Session)
    requires s.state == Init0 && s.pos == 0
    ensures Initialize(s, 10, 100, 0, 100, true).1
    ensures TestSetup(Initialize(s, 10, 100, 0, 100, true).0)
  {
  }

  /** Feeding a run of such steps into a session that accepts samples succeeds and yields the run. */
  lemma FeedQuietRun(s: Session, xs: seq<int>)
    requires QuietRunFits(s, xs) && Feedable(s)
    ensures FeedFits(s, xs) && Feed(s, xs) == (QuietRun(s, xs), true)
  {
    FeedRun(s, xs);
  }

  /** One step of a run, for a run given as a sequence display. */
  lemma QuietRunStep(s: Session, xs: seq<int>)
    requires |xs| > 0 && QuietFits(s, xs[0]) && QuietRunFits(Quiet(s, xs[0]), xs[1..])
    ensures QuietRunFits(s, xs) && QuietRun(s, xs) == QuietRun(Quiet(s, xs[0]), xs[1..])
  {
  }

  /** The configuration of the tests, which feeding leaves alone. */
  predicate TestConfig(s: Session)
  {
    && Wf(s) && s.count == 10 && s.width == 100 && s.offset == 0
    && s.hysteresis == 100 && s.flags == CountAll && s.counting == FourPoint
    && |s.res| == 20 && s.hasHistory && !s.locked
  }

  /** In startup with minimum `lo`, maximum value `hi`, nothing confirmed, `pos` samples fed. */
  predicate InStartup(s: Session, lo: Tuple, hi: int, pos: nat)
  {
    && TestConfig(s) && s.state == Busy && s.cnt == 0
    && s.lo == lo && s.hi.value == hi && s.history == [] && s.pos == pos
  }

  // ---------------------------------------------------------------------
  // The run (0, 0, 1, 1)
  // ---------------------------------------------------------------------

  /** The last 1: inside the extrema. */
  lemma BandLast(s: Session)
    requires InStartup(s, Tuple(0, 0, 1), 100, 3)
    ensures QuietRunFits(s, [100]) && InStartup(QuietRun(s, [100]), Tuple(0, 0, 1), 100, 4)
  {
    QuietInside(s, 100);
    QuietRunStep(s, [100]);
  }

  /** The first 1: the maximum moves to exactly the hysteresis above the minimum. */
  lemma BandRise(s: Session)
    requires InStartup(s, Tuple(0, 0, 1), 0, 2)
    ensures QuietRunFits(s, [100, 100]) && InStartup(QuietRun(s, [100, 100]), Tuple(0, 0, 1), 100, 4)
  {
    QuietRise(s, 100);
    BandLast(Quiet(s, 100));
    QuietRunStep(s, [100, 100]);
  }

  /** The second 0: inside the extrema. */
  lemma BandHold(s: Session)
    requires InStartup(s, Tuple(0, 0, 1), 0, 1)
    ensures QuietRunFits(s, [0, 100, 100]) && InStartup(QuietRun(s, [0, 100, 100]), Tuple(0, 0, 1), 100, 4)
  {
    QuietInside(s, 0);
    BandRise(Quiet(s, 0));
    QuietRunStep(s, [0, 100, 100]);
  }

  /** The run (0, 0, 1, 1): the extrema span exactly the hysteresis, so the filter stays in startup. */
  lemma RunWithinBand(s: Session)
    requires TestSetup(s)
    ensures QuietRunFits(s, [0, 0, 100, 100]) && InStartup(QuietRun(s, [0, 0, 100, 100]), Tuple(0, 0, 1), 100, 4)
  {
    QuietFirst(s, 0);
    BandHold(Quiet(s, 0));
    QuietRunStep(s, [0, 0, 100, 100]);
  }

  /** Finalising a session that never left startup leaves residue and history empty. */
  lemma FinishWithoutTurn(s: Session)
    requires Wf(s) && s.state == Busy && s.cnt == 0 && s.history == [] && !Delaying(s) && s.counting == FourPoint
    ensures FinalizeFits(s, ResNone)
    ensures var r := Finish(s, ResNone);
            r.1 && r.0.state == Finished && r.0.history == [] && r.0.cnt == 0
  {
  }

  /** (0, 0, 1, 1) stays within the hysteresis band: no turning point, empty residue and history. */
  lemma TraceWithinBand(s: Session) returns (f: Session)
    requires TestSetup(s)
    ensures FeedFits(s, [0, 0, 100, 100]) && Feed(s, [0, 0, 100, 100]) == (f, true)
    ensures f.state == Busy && FinalizeFits(f, ResNone) && Rank(f.state) < Rank(Finalize)
    ensures var r := Finish(f, ResNone);
            r.1 && r.0.state == Finished && r.0.history == [] && r.0.cnt == 0
  {
    RunWithinBand(s);
    FeedQuietRun(s, [0, 0, 100, 100]);
    f := QuietRun(s, [0, 0, 100, 100]);
    FinishWithoutTurn(f);
  }

  // ---------------------------------------------------------------------
  // The run (1.0, 1.1, 1.2, 2.0, 2.1, 1.1, 1.3, 1.0, 1.98, 1.0)
  // ---------------------------------------------------------------------

  /** 1.0 confirmed, 2.1 the interim point, rising; `pos` samples fed. */
  predicate AfterFirstTurn(s: Session, pos: nat)
  {
    && TestConfig(s) && s.state == BusyInterim && s.cnt == 1 && s.slope == 1
    && s.res[0] == Tuple(100, 1, 1) && s.res[1] == Tuple(210, 2, 5)
    && s.history == [Tuple(100, 1, 1)] && s.pos == pos
  }

  /** 1.0 and 2.1 confirmed, 1.0 the interim point, falling; `pos` samples fed. */
  predicate AfterSecondTurn(s: Session, pos: nat)
  {
    && TestConfig(s) && s.state == BusyInterim && s.cnt == 2 && s.slope == -1
    && s.res[0] == Tuple(100, 1, 1) && s.res[1] == Tuple(210, 2, 5) && s.res[2] == Tuple(100, 1, 8)
    && s.history == [Tuple(100, 1, 1), Tuple(210, 2, 5)] && s.pos == pos
  }

  /** The last 1.0: equal to the interim point, nothing changes. */
  lemma RunLast(s: Session, xs: seq<int>)
    requires AfterSecondTurn(s, 9) && xs == [100]
    ensures QuietRunFits(s, xs) && AfterSecondTurn(QuietRun(s, xs), 10)
  {
    QuietHold(s, 100);
    QuietRunStep(s, xs);
  }

  /** 1.98 stays within the hysteresis above the interim 1.0. */
  lemma RunHoldAbove(s: Session, xs: seq<int>)
    requires AfterSecondTurn(s, 8) && xs == [198, 100]
    ensures QuietRunFits(s, xs) && AfterSecondTurn(QuietRun(s, xs), 10)
  {
    QuietHold(s, 198);
    RunLast(Quiet(s, 198), xs[1..]);
    QuietRunStep(s, xs);
  }

  /** 1.0 falls more than the hysteresis below 2.1: 2.1 is confirmed, 1.0 becomes the interim point. */
  lemma RunSecondTurn(s: Session, xs: seq<int>)
    requires AfterFirstTurn(s, 7) && xs == [100, 198, 100]
    ensures QuietRunFits(s, xs) && AfterSecondTurn(QuietRun(s, xs), 10)
  {
    QuietTurn(s, 100);
    RunHoldAbove(Quiet(s, 100), xs[1..]);
    QuietRunStep(s, xs);
  }

  /** 1.3 stays within the hysteresis below 2.1. */
  lemma RunHoldSecond(s: Session, xs: seq<int>)
    requires AfterFirstTurn(s, 6) && xs == [130, 100, 198, 100]
    ensures QuietRunFits(s, xs) && AfterSecondTurn(QuietRun(s, xs), 10)
  {
    QuietHold(s, 130);
    RunSecondTurn(Quiet(s, 130), xs[1..]);
    QuietRunStep(s, xs);
  }

  /** 1.1 stays within the hysteresis below 2.1. */
  lemma RunHoldFirst(s: Session, xs: seq<int>)
    requires AfterFirstTurn(s, 5) && xs == [110, 130, 100, 198, 100]
    ensures QuietRunFits(s, xs) && AfterSecondTurn(QuietRun(s, xs), 10)
  {
    QuietHold(s, 110);
    RunHoldSecond(Quiet(s, 110), xs[1..]);
    QuietRunStep(s, xs);
  }

  /** 2.1 leaves the band above 1.0: 1.0 is confirmed and 2.1 becomes the interim point. */
  lemma RunFirstTurn(s: Session, xs: seq<int>)
    requires InStartup(s, Tuple(100, 1, 1), 200, 4) && xs == [210, 110, 130, 100, 198, 100]
    ensures QuietRunFits(s, xs) && AfterSecondTurn(QuietRun(s, xs), 10)
  {
    QuietRiseTurn(s, 210);
    RunHoldFirst(Quiet(s, 210), xs[1..]);
    QuietRunStep(s, xs);
  }

  /** 2.0 moves the maximum, still within the hysteresis. */
  lemma RunRiseThird(s: Session, xs: seq<int>)
    requires InStartup(s, Tuple(100, 1, 1), 120, 3) && xs == [200, 210, 110, 130, 100, 198, 100]
    ensures QuietRunFits(s, xs) && AfterSecondTurn(QuietRun(s, xs), 10)
  {
    QuietRise(s, 200);
    RunFirstTurn(Quiet(s, 200), xs[1..]);
    QuietRunStep(s, xs);
  }

  /** 1.2 moves the maximum. */
  lemma RunRiseSecond(s: Session, xs: seq<int>)
    requires InStartup(s, Tuple(100, 1, 1), 110, 2) && xs == [120, 200, 210, 110, 130, 100, 198, 100]
    ensures QuietRunFits(s, xs) && AfterSecondTurn(QuietRun(s, xs), 10)
  {
    QuietRise(s, 120);
    RunRiseThird(Quiet(s, 120), xs[1..]);
    QuietRunStep(s, xs);
  }

  /** 1.1 moves the maximum. */
  lemma RunRiseFirst(s: Session, xs: seq<int>)
    requires InStartup(s, Tuple(100, 1, 1), 100, 1) && xs == [110, 120, 200, 210, 110, 130, 100, 198, 100]
    ensures QuietRunFits(s, xs) && AfterSecondTurn(QuietRun(s, xs), 10)
  {
    QuietRise(s, 110);
    RunRiseSecond(Quiet(s, 110), xs[1..]);
    QuietRunStep(s, xs);
  }

  /**
   * 1.0 seeds the extrema; the whole series leaves 1.0 and 2.1 confirmed
   * and 1.0 (position 8) as the interim point.
   */
  lemma RunThreeTurningPoints(s: Session, xs: seq<int>)
    requires TestSetup(s) && xs == [100, 110, 120, 200, 210, 110, 130, 100, 198, 100]
    ensures QuietRunFits(s, xs) && AfterSecondTurn(QuietRun(s, xs), 10)
  {
    QuietFirst(s, 100);
    RunRiseFirst(Quiet(s, 100), xs[1..]);
    QuietRunStep(s, xs);
  }

  /** `RFC_feed` on the ten samples succeeds and leaves that session. */
  lemma FeedThreeTurningPoints(s: Session, data: seq<int>) returns (f: Session)
    requires TestSetup(s) && data == [100, 110, 120, 200, 210, 110, 130, 100, 198, 100]
    ensures FeedFits(s, data) && Feed(s, data) == (f, true) && AfterSecondTurn(f, 10)
  {
    RunThreeTurningPoints(s, data);
    FeedQuietRun(s, data);
    f := QuietRun(s, data);
  }

  /** Finalising with RES_NONE folds the interim 1.0 into residue and history. */
  lemma TraceFinish(s: Session)
    requires AfterSecondTurn(s, 10)
    ensures FinalizeFits(s, ResNone) && Rank(s.state) < Rank(Finalize)
    ensures var r := Finish(s, ResNone);
            && r.1 && r.0.state == Finished && r.0.cnt == 3
            && r.0.history == [Tuple(100, 1, 1), Tuple(210, 2, 5), Tuple(100, 1, 8)]
            && Confirmed(r.0) == r.0.history
  {
    assert !Closable4(Fold(s));
    var r := FeedFinalize(s).0;
    assert r.history == [Tuple(100, 1, 1), Tuple(210, 2, 5), Tuple(100, 1, 8)];
    assert r.cnt == 3 && r.res[..3] == r.history;
  }

  /**
   * The ten-sample series confirms 1.0 at position 1, 2.1 at position 5
   * and, when finalised, 1.0 at position 8; these are the history and the
   * residue (no cycle closes).
   */
  lemma TraceThreeTurningPoints(s: Session, data: seq<int>) returns (f: Session)
    requires TestSetup(s) && data == [100, 110, 120, 200, 210, 110, 130, 100, 198, 100]
    ensures FeedFits(s, data) && Feed(s, data) == (f, true)
    ensures FinalizeFits(f, ResNone) && Rank(f.state) < Rank(Finalize)
    ensures var r := Finish(f, ResNone);
            && r.1 && r.0.state == Finished && r.0.cnt == 3
            && r.0.history == [Tuple(100, 1, 1), Tuple(210, 2, 5), Tuple(100, 1, 8)]
            && Confirmed(r.0) == r.0.history
  {
    f := FeedThreeTurningPoints(s, data);
    TraceFinish(f);
  }

  // ---------------------------------------------------------------------
  // Runs that never leave startup, without margins
  // ---------------------------------------------------------------------

  /** Every sample lies at or above `lo` and at most the hysteresis above it. */
  predicate WithinBandAbove(lo: int, hysteresis: int, xs: seq<int>)
  {
    forall i :: 0 <= i < |xs| ==> lo <= xs[i] <= lo + hysteresis
  }

  /** The tail of a band-bounded run is band-bounded. */
  lemma WithinBandAboveTail(lo: int, hysteresis: int, xs: seq<int>)
    requires |xs| > 0 && WithinBandAbove(lo, hysteresis, xs)
    ensures WithinBandAbove(lo, hysteresis, xs[1..]) && lo <= xs[0] <= lo + hysteresis
  {
    forall i | 0 <= i < |xs[1..]|
      ensures lo <= xs[1..][i] <= lo + hysteresis
    {
      assert xs[1..][i] == xs[i + 1];
    }
  }

  /** In startup without margins, after the first sample, nothing confirmed. */
  predicate StartupHolding(s: Session)
  {
    && Wf(s) && !Delaying(s) && s.state == Busy && s.cnt == 0 && s.counting == FourPoint
    && s.hysteresis >= 0 && s.offset <= s.lo.value
  }

  /** A run within the band above the first sample confirms nothing and records nothing. */
  lemma {:induction false} StartupRun(s: Session, xs: seq<int>)
    requires StartupHolding(s) && WithinBandAbove(s.lo.value, s.hysteresis, xs)
    ensures QuietRunFits(s, xs)
    ensures var t := QuietRun(s, xs);
            StartupHolding(t) && t == s.(internal := t.internal) && t.lo == s.lo
    decreases |xs|
  {
    if |xs| > 0 {
      WithinBandAboveTail(s.lo.value, s.hysteresis, xs);
      var s1 := Quiet(s, xs[0]);
      assert StartupHolding(s1) && s1 == s.(internal := s1.internal) && s1.lo == s.lo;
      StartupRun(s1, xs[1..]);
      QuietRunStep(s, xs);
    }
  }

  /**
   * Without margins, a series whose samples all stay within the
   * hysteresis above the first one leaves residue and history empty.
   */
  lemma TraceStartup(s: Session, data: seq<int>) returns (f: Session)
    requires TestSetup(s) && |data| > 0 && data[0] >= 0 && WithinBandAbove(data[0], 100, data[1..])
    ensures FeedFits(s, data) && Feed(s, data) == (f, true)
    ensures FinalizeFits(f, ResNone) && Rank(f.state) < Rank(Finalize)
    ensures var r := Finish(f, ResNone);
            r.1 && r.0.state == Finished && r.0.history == [] && r.0.cnt == 0
  {
    QuietFirst(s, data[0]);
    StartupRun(Quiet(s, data[0]), data[1..]);
    QuietRunStep(s, data);
    FeedQuietRun(s, data);
    f := QuietRun(s, data);
    FinishWithoutTurn(f);
  }

  /** Without any sample nothing is recorded. */
  lemma TraceEmpty(s: Session)
    requires TestSetup(s)
    ensures FeedFits(s, []) && Feed(s, []) == (s, true) && FinalizeFits(s, ResNone)
    ensures var r := Finish(s, ResNone);
            r.1 && r.0.state == Finished && r.0.history == [] && r.0.cnt == 0
  {
  }

  /** Feeding `data` and finalising leaves no turning point and an empty residue. */
  predicate NothingRecorded(s: Session, data: seq<int>)
  {
    && FeedFits(s, data) && FinalizeFits(Feed(s, data).0, ResNone) && Rank(Feed(s, data).0.state) < Rank(Finalize)
    && Finish(Feed(s, data).0, ResNone).0.history == [] && Finish(Feed(s, data).0, ResNone).0.cnt == 0
  }

  /** `TraceStartup` stated through `NothingRecorded`. */
  lemma StartupCase(s: Session, data: seq<int>)
    requires TestSetup(s) && |data| > 0 && data[0] >= 0 && WithinBandAbove(data[0], 100, data[1..])
    ensures NothingRecorded(s, data)
  {
    var f := TraceStartup(s, data);
  }

  /** The tests (0), (0, 0), (0, 0.1) and (0, 1.0) without margins: nothing recorded. */
  lemma TraceStartupShort(s: Session, d1: seq<int>, d2: seq<int>, d3: seq<int>, d4: seq<int>)
    requires TestSetup(s) && d1 == [0] && d2 == [0, 0] && d3 == [0, 10] && d4 == [0, 100]
    ensures NothingRecorded(s, d1) && NothingRecorded(s, d2)
    ensures NothingRecorded(s, d3) && NothingRecorded(s, d4)
  {
    assert d2[1..] == [0] && d3[1..] == [10] && d4[1..] == [100];
    StartupCase(s, d1);
    StartupCase(s, d2);
    StartupCase(s, d3);
    StartupCase(s, d4);
  }

  /** The eight-sample series without margins: it never leaves the band, nothing recorded. */
  lemma TraceEightSamples(s: Session, data: seq<int>)
    requires TestSetup(s) && data == [100, 110, 120, 110, 130, 100, 198, 100]
    ensures NothingRecorded(s, data)
  {
    StartupCase(s, data);
  }

  // ---------------------------------------------------------------------
  // Margin steps: the same filter steps with the delay stage active
  // ---------------------------------------------------------------------

  /** The first sample with margins enforced is also the left margin and the delayed point. */
  lemma MarginFirst(s: Session, v: int)
    requires QuietFits(s, v) && Delaying(s) && s.state == Init && s.pos == 0
    ensures var pt := Stamp(s, v);
            Quiet(s, v) == s.(internal := s.internal.(lo := pt, hi := pt, pos := 1, margin0 := pt, delayed := pt), state := Busy)
  {
  }

  /** A later startup sample between the extrema only becomes the right margin. */
  lemma MarginInside(s: Session, v: int)
    requires QuietFits(s, v) && Delaying(s) && s.state == Busy && s.pos > 0
    requires s.lo.value <= v <= s.hi.value
    ensures Quiet(s, v) == s.(internal := s.internal.(pos := s.pos + 1, margin1 := Stamp(s, v)))
  {
  }

  /**
   * A rising startup sample beyond the hysteresis confirms the minimum, but
   * the delay stage drops it when it equals the delayed point in value.
   */
  lemma MarginRiseTurnHeld(s: Session, v: int)
    requires QuietFits(s, v) && Delaying(s) && s.state == Busy && s.pos > 0
    requires v > s.hi.value && v - s.lo.value > s.hysteresis && s.lo.value == s.delayed.value
    ensures var pt := Stamp(s, v);
            Quiet(s, v) == s.(res := s.res[s.cnt := s.lo][s.cnt + 1 := pt], cnt := s.cnt + 1, internal := s.internal.(slope := 1, hi := pt, extremaChanged := true, pos := s.pos + 1, margin1 := pt), state := BusyInterim)
  {
  }

  /** A sample that neither moves nor confirms the interim point only becomes the right margin. */
  lemma MarginStill(s: Session, v: int)
    requires QuietFits(s, v) && Delaying(s) && s.state == BusyInterim && s.pos > 0
    requires var d := ValueDelta(s.res[s.cnt].value, v);
             || (d.sign == s.slope && v == s.res[s.cnt].value)
             || (d.sign != s.slope && d.magnitude <= s.hysteresis)
    ensures Quiet(s, v) == s.(internal := s.internal.(pos := s.pos + 1, margin1 := Stamp(s, v)))
  {
  }

  /**
   * A reversal beyond the hysteresis confirms the interim point; the delay
   * stage holds it back and records the point it held before.
   */
  lemma MarginTurn(s: Session, v: int)
    requires QuietFits(s, v) && Delaying(s) && s.state == BusyInterim && s.pos > 0
    requires var d := ValueDelta(s.res[s.cnt].value, v); d.sign != s.slope && d.magnitude > s.hysteresis
    requires s.res[s.cnt].value != s.delayed.value
    ensures var pt := Stamp(s, v);
            Quiet(s, v) == s.(res := s.res[s.cnt + 1 := pt], cnt := s.cnt + 1, internal := s.internal.(slope := ValueDelta(s.res[s.cnt].value, v).sign, pos := s.pos + 1, margin1 := pt, delayed := s.res[s.cnt]), tp := s.tp.(history := s.history + [s.delayed]))
  {
  }

  // ---------------------------------------------------------------------
  // The run (1.0, 1.0, 2.1, 2.1, 1.0, 1.0) with margins enforced
  // ---------------------------------------------------------------------

  /** The tests' configuration with `RFC_FLAGS_ENFORCE_MARGIN` set. */
  predicate MarginConfig(s: Session)
  {
    && Wf(s) && s.count == 10 && s.width == 100 && s.offset == 0
    && s.hysteresis == 100 && s.flags == CountAll.(enforceMargin := true) && s.counting == FourPoint
    && |s.res| == 20 && s.hasHistory && !s.locked
  }

  /** The tests' initial session with the margin flag set, as the margin tests do after `RFC_init`. */
  function WithMargin(s: Session): (r: Session)
    requires TestSetup(s)
    ensures MarginConfig(r) && r.state == Init && r.cnt == 0 && r.history == [] && r.pos == 0
  {
    s.(cfg := s.cfg.(flags := s.flags.(enforceMargin := true)))
  }

  /** In startup at 1.0 (position 1), which is also the left margin and the delayed point. */
  predicate MarginStartup(s: Session, pos: nat)
  {
    && MarginConfig(s) && s.state == Busy && s.cnt == 0
    && s.lo == Tuple(100, 1, 1) && s.hi == Tuple(100, 1, 1)
    && s.margin0 == Tuple(100, 1, 1) && s.delayed == Tuple(100, 1, 1) && s.history == [] && s.pos == pos
  }

  /** 1.0 confirmed but held back, 2.1 (position 3) the interim point, rising. */
  predicate MarginUp(s: Session, pos: nat)
  {
    && MarginConfig(s) && s.state == BusyInterim && s.cnt == 1 && s.slope == 1
    && s.res[0] == Tuple(100, 1, 1) && s.res[1] == Tuple(210, 2, 3)
    && s.margin0 == Tuple(100, 1, 1) && s.delayed == Tuple(100, 1, 1) && s.history == [] && s.pos == pos
  }

  /** 1.0 and 2.1 confirmed, 1.0 recorded, 2.1 held back, 1.0 (position 5) the interim point, falling. */
  predicate MarginDown(s: Session, pos: nat)
  {
    && MarginConfig(s) && s.state == BusyInterim && s.cnt == 2 && s.slope == -1
    && s.res[0] == Tuple(100, 1, 1) && s.res[1] == Tuple(210, 2, 3) && s.res[2] == Tuple(100, 1, 5)
    && s.margin0 == Tuple(100, 1, 1) && s.margin1 == Tuple(100, 1, pos) && s.delayed == Tuple(210, 2, 3)
    && s.history == [Tuple(100, 1, 1)] && s.pos == pos
  }

  /** The last 1.0: equal to the interim point; it becomes the right margin. */
  lemma MarginRunLast(s: Session, xs: seq<int>)
    requires MarginDown(s, 5) && xs == [100]
    ensures QuietRunFits(s, xs) && MarginDown(QuietRun(s, xs), 6)
  {
    MarginStill(s, 100);
    QuietRunStep(s, xs);
  }

  /** The first 1.0 after the peak falls beyond the hysteresis: 2.1 is confirmed, 1.0 at position 1 recorded. */
  lemma MarginRunFall(s: Session, xs: seq<int>)
    requires MarginUp(s, 4) && xs == [100, 100]
    ensures QuietRunFits(s, xs) && MarginDown(QuietRun(s, xs), 6)
  {
    MarginTurn(s, 100);
    MarginRunLast(Quiet(s, 100), xs[1..]);
    QuietRunStep(s, xs);
  }

  /** The second 2.1: equal to the interim point, which keeps its position 3. */
  lemma MarginRunPeak(s: Session, xs: seq<int>)
    requires MarginUp(s, 3) && xs == [210, 100, 100]
    ensures QuietRunFits(s, xs) && MarginDown(QuietRun(s, xs), 6)
  {
    MarginStill(s, 210);
    MarginRunFall(Quiet(s, 210), xs[1..]);
    QuietRunStep(s, xs);
  }

  /** The first 2.1 leaves the band: 1.0 is confirmed, but equals the delayed point and is held. */
  lemma MarginRunRise(s: Session, xs: seq<int>)
    requires MarginStartup(s, 2) && xs == [210, 210, 100, 100]
    ensures QuietRunFits(s, xs) && MarginDown(QuietRun(s, xs), 6)
  {
    MarginRiseTurnHeld(s, 210);
    MarginRunPeak(Quiet(s, 210), xs[1..]);
    QuietRunStep(s, xs);
  }

  /** The second 1.0: inside the extrema. */
  lemma MarginRunSecond(s: Session, xs: seq<int>)
    requires MarginStartup(s, 1) && xs == [100, 210, 210, 100, 100]
    ensures QuietRunFits(s, xs) && MarginDown(QuietRun(s, xs), 6)
  {
    MarginInside(s, 100);
    MarginRunRise(Quiet(s, 100), xs[1..]);
    QuietRunStep(s, xs);
  }

  /** The whole series: 1.0 recorded, 2.1 held back, 1.0 at position 5 the interim point, 1.0 at 6 the right margin. */
  lemma MarginRun(s: Session, xs: seq<int>)
    requires MarginConfig(s) && s.state == Init && s.cnt == 0 && s.history == [] && s.pos == 0
    requires xs == [100, 100, 210, 210, 100, 100]
    ensures QuietRunFits(s, xs) && MarginDown(QuietRun(s, xs), 6)
  {
    MarginFirst(s, 100);
    MarginRunSecond(Quiet(s, 100), xs[1..]);
    QuietRunStep(s, xs);
  }

  /**
   * Finalising resolves the delay stage: the held 2.1 is recorded, and the
   * right margin 1.0 at position 6 replaces the pending interim 1.0 at
   * position 5 in the history, while the residue keeps position 5.
   */
  lemma MarginFinish(s: Session)
    requires MarginDown(s, 6)
    ensures FinalizeFits(s, ResNone) && Rank(s.state) < Rank(Finalize)
    ensures var r := Finish(s, ResNone);
            && r.1 && r.0.state == Finished && r.0.cnt == 3
            && r.0.history == [Tuple(100, 1, 1), Tuple(210, 2, 3), Tuple(100, 1, 6)]
            && Confirmed(r.0) == [Tuple(100, 1, 1), Tuple(210, 2, 3), Tuple(100, 1, 5)]
  {
    assert !Closable4(Fold(s));
    var r := FeedFinalize(s).0;
    assert r.history == [Tuple(100, 1, 1), Tuple(210, 2, 3), Tuple(100, 1, 6)];
    assert r.cnt == 3 && r.res[..3] == [Tuple(100, 1, 1), Tuple(210, 2, 3), Tuple(100, 1, 5)];
  }

  /**
   * With margins enforced, the series 1.0, 1.0, 2.1, 2.1, 1.0, 1.0 records
   * 1.0 at position 1, 2.1 at 3 and the right margin 1.0 at 6 in the
   * history, while the residue holds 1.0 at 1, 2.1 at 3 and 1.0 at 5.
   */
  lemma TraceMarginThreeTurningPoints(s: Session, data: seq<int>) returns (f: Session)
    requires TestSetup(s) && data == [100, 100, 210, 210, 100, 100]
    ensures FeedFits(WithMargin(s), data) && Feed(WithMargin(s), data) == (f, true)
    ensures FinalizeFits(f, ResNone) && Rank(f.state) < Rank(Finalize)
    ensures var r := Finish(f, ResNone);
            && r.1 && r.0.state == Finished && r.0.cnt == 3
            && r.0.history == [Tuple(100, 1, 1), Tuple(210, 2, 3), Tuple(100, 1, 6)]
            && Confirmed(r.0) == [Tuple(100, 1, 1), Tuple(210, 2, 3), Tuple(100, 1, 5)]
  {
    var m := WithMargin(s);
    MarginRun(m, data);
    FeedQuietRun(m, data);
    f := QuietRun(m, data);
    MarginFinish(f);
  }

  // ---------------------------------------------------------------------
  // Margin runs that never leave startup
  // ---------------------------------------------------------------------

  /** In startup with margins enforced, after the first sample, nothing confirmed. */
  predicate MarginHolding(s: Session)
  {
    && Wf(s) && Delaying(s) && s.state == Busy && s.cnt == 0 && s.counting == FourPoint
    && s.hysteresis >= 0 && s.pos > 0 && s.offset <= s.lo.value
  }

  /** A sample within the band above the minimum raises at most the maximum and becomes the right margin. */
  lemma MarginStartupStep(s: Session, v: int)
    requires MarginHolding(s) && s.lo.value <= v <= s.lo.value + s.hysteresis
    ensures QuietFits(s, v)
    ensures var t := Quiet(s, v);
            && MarginHolding(t)
            && t == s.(internal := t.internal)
            && t.internal == s.internal.(hi := t.hi, extremaChanged := t.extremaChanged, pos := s.pos + 1, margin1 := Stamp(s, v))
            && t.lo == s.lo
  {
  }

  /**
   * A margin run that stays within the band above the first sample
   * confirms nothing and records nothing; only the right margin follows
   * the last sample.
   */
  lemma {:induction false} MarginStartupRun(s: Session, xs: seq<int>)
    requires MarginHolding(s) && WithinBandAbove(s.lo.value, s.hysteresis, xs)
    ensures QuietRunFits(s, xs)
    ensures var t := QuietRun(s, xs);
            && MarginHolding(t)
            && t == s.(internal := t.internal)
            && t.lo == s.lo && t.margin0 == s.margin0 && t.delayed == s.delayed && t.pos == s.pos + |xs|
            && t.margin1 == if |xs| == 0 then s.margin1 else Stamp(s.(internal := s.internal.(pos := s.pos + |xs| - 1)), xs[|xs| - 1])
    decreases |xs|
  {
    if |xs| > 0 {
      WithinBandAboveTail(s.lo.value, s.hysteresis, xs);
      MarginStartupStep(s, xs[0]);
      var s1 := Quiet(s, xs[0]);
      MarginStartupRun(s1, xs[1..]);
      QuietRunStep(s, xs);
    }
  }

  /**
   * Finalising such a run resolves the delay stage: the first sample is
   * recorded, then the right margin if a second sample came. The right
   * margin never replaces the first sample, even at equal value.
   */
  lemma MarginStartupFinish(s: Session)
    requires MarginHolding(s) && s.delayed.pos == 1 && s.margin0.pos == 1
    ensures FinalizeFits(s, ResNone) && Rank(s.state) < Rank(Finalize)
    ensures var r := Finish(s, ResNone);
            && r.1 && r.0.state == Finished && r.0.cnt == 0
            && r.0.history == s.history + [s.delayed] + (if s.margin1.pos > 1 then [s.margin1] else [])
  {
  }

  /**
   * With margins enforced, a series whose samples all stay within the
   * hysteresis above the first one records the first sample and, when
   * there are two or more, the last one as right margin; the residue
   * stays empty.
   */
  lemma TraceMarginStartup(s: Session, data: seq<int>) returns (f: Session)
    requires TestSetup(s) && |data| > 0 && data[0] >= 0 && WithinBandAbove(data[0], 100, data[1..])
    ensures FeedFits(WithMargin(s), data) && Feed(WithMargin(s), data) == (f, true)
    ensures FinalizeFits(f, ResNone) && Rank(f.state) < Rank(Finalize)
    ensures var r := Finish(f, ResNone);
            var last := |data| - 1;
            && r.1 && r.0.state == Finished && r.0.cnt == 0
            && r.0.history == [Tuple(data[0], Quantize(0, 100, data[0]), 1)]
                              + (if |data| > 1 then [Tuple(data[last], Quantize(0, 100, data[last]), |data|)] else [])
  {
    f := MarginStartupFeed(s, data);
    MarginStartupFinish(f);
  }

  /** Feeding such a series leaves the first sample delayed and the last one as right margin. */
  lemma MarginStartupFeed(s: Session, data: seq<int>) returns (f: Session)
    requires TestSetup(s) && |data| > 0 && data[0] >= 0 && WithinBandAbove(data[0], 100, data[1..])
    ensures FeedFits(WithMargin(s), data) && Feed(WithMargin(s), data) == (f, true)
    ensures MarginHolding(f) && f.history == [] && f.margin0.pos == 1
    ensures f.delayed == Tuple(data[0], Quantize(0, 100, data[0]), 1)
    ensures |data| == 1 ==> f.margin1 == Nil
    ensures |data| > 1 ==> f.margin1 == Tuple(data[|data| - 1], Quantize(0, 100, data[|data| - 1]), |data|)
  {
    var m := WithMargin(s);
    MarginFirst(m, data[0]);
    var m1 := Quiet(m, data[0]);
    assert MarginHolding(m1) && m1.margin1 == Nil && m1.pos == 1;
    assert m1.delayed == Tuple(data[0], Quantize(0, 100, data[0]), 1);
    MarginStartupRun(m1, data[1..]);
    QuietRunStep(m, data);
    FeedQuietRun(m, data);
    f := QuietRun(m, data);
  }

  /** With margins enforced and no sample at all, nothing is recorded. */
  lemma TraceMarginEmpty(s: Session)
    requires TestSetup(s)
    ensures FeedFits(WithMargin(s), []) && Feed(WithMargin(s), []) == (WithMargin(s), true)
    ensures FinalizeFits(WithMargin(s), ResNone)
    ensures var r := Finish(WithMargin(s), ResNone);
            r.1 && r.0.state == Finished && r.0.history == [] && r.0.cnt == 0
  {
  }

  /** The margin test (0): one point recorded. */
  lemma TraceMarginOne(s: Session, data: seq<int>)
    requires TestSetup(s) && data == [0]
    ensures FeedFits(WithMargin(s), data) && FinalizeFits(Feed(WithMargin(s), data).0, ResNone)
    ensures Rank(Feed(WithMargin(s), data).0.state) < Rank(Finalize)
    ensures var r := Finish(Feed(WithMargin(s), data).0, ResNone).0;
            r.history == [Tuple(0, 0, 1)]
  {
    var f := TraceMarginStartup(s, data);
  }

  /** One startup-only margin series of two or more samples: its history after finalising and its empty residue. */
  lemma TraceMarginCase(s: Session, data: seq<int>, h: seq<Tuple>)
    requires TestSetup(s) && |data| > 1 && data[0] >= 0 && WithinBandAbove(data[0], 100, data[1..])
    requires h == [Tuple(data[0], Quantize(0, 100, data[0]), 1), Tuple(data[|data| - 1], Quantize(0, 100, data[|data| - 1]), |data|)]
    ensures FeedFits(WithMargin(s), data) && FinalizeFits(Feed(WithMargin(s), data).0, ResNone)
    ensures Rank(Feed(WithMargin(s), data).0.state) < Rank(Finalize)
    ensures var r := Finish(Feed(WithMargin(s), data).0, ResNone).0;
            r.history == h && r.cnt == 0
  {
    var f := TraceMarginStartup(s, data);
  }

  /**
   * The margin tests (0, 0), (0, 0.1) and (0, 1.0): two points recorded,
   * the right margin kept beside a first sample of equal value.
   */
  lemma TraceMarginTwo(s: Session, d1: seq<int>, d2: seq<int>, d3: seq<int>)
    requires TestSetup(s) && d1 == [0, 0] && d2 == [0, 10] && d3 == [0, 100]
    ensures FeedFits(WithMargin(s), d1) && FinalizeFits(Feed(WithMargin(s), d1).0, ResNone)
    ensures FeedFits(WithMargin(s), d2) && FinalizeFits(Feed(WithMargin(s), d2).0, ResNone)
    ensures FeedFits(WithMargin(s), d3) && FinalizeFits(Feed(WithMargin(s), d3).0, ResNone)
    ensures Rank(Feed(WithMargin(s), d1).0.state) < Rank(Finalize)
    ensures Rank(Feed(WithMargin(s), d2).0.state) < Rank(Finalize)
    ensures Rank(Feed(WithMargin(s), d3).0.state) < Rank(Finalize)
    ensures Finish(Feed(WithMargin(s), d1).0, ResNone).0.history == [Tuple(0, 0, 1), Tuple(0, 0, 2)]
    ensures Finish(Feed(WithMargin(s), d2).0, ResNone).0.history == [Tuple(0, 0, 1), Tuple(10, 0, 2)]
    ensures Finish(Feed(WithMargin(s), d3).0, ResNone).0.history == [Tuple(0, 0, 1), Tuple(100, 1, 2)]
  {
    TraceMarginCase(s, d1, [Tuple(0, 0, 1), Tuple(0, 0, 2)]);
    TraceMarginCase(s, d2, [Tuple(0, 0, 1), Tuple(10, 0, 2)]);
    TraceMarginCase(s, d3, [Tuple(0, 0, 1), Tuple(100, 1, 2)]);
  }

  /** The margin test (0, 0, 1, 1): 0 at 1 and 1.0 at 4 recorded, the residue empty. */
  lemma TraceMarginWithinBand(s: Session, data: seq<int>)
    requires TestSetup(s) && data == [0, 0, 100, 100]
    ensures FeedFits(WithMargin(s), data) && FinalizeFits(Feed(WithMargin(s), data).0, ResNone)
    ensures Rank(Feed(WithMargin(s), data).0.state) < Rank(Finalize)
    ensures var r := Finish(Feed(WithMargin(s), data).0, ResNone).0;
            r.history == [Tuple(0, 0, 1), Tuple(100, 1, 4)] && r.cnt == 0
  {
    TraceMarginCase(s, data, [Tuple(0, 0, 1), Tuple(100, 1, 4)]);
  }

  /** The margin test on the eight-sample series: 1.0 at 1 and 1.0 at 8 recorded, the residue empty. */
  lemma TraceMarginEightSamples(s: Session, data: seq<int>)
    requires TestSetup(s) && data == [100, 110, 120, 110, 130, 100, 198, 100]
    ensures FeedFits(WithMargin(s), data) && FinalizeFits(Feed(WithMargin(s), data).0, ResNone)
    ensures Rank(Feed(WithMargin(s), data).0.state) < Rank(Finalize)
    ensures var r := Finish(Feed(WithMargin(s), data).0, ResNone).0;
            r.history == [Tuple(100, 1, 1), Tuple(100, 1, 8)] && r.cnt == 0
  {
    TraceMarginCase(s, data, [Tuple(100, 1, 1), Tuple(100, 1, 8)]);
  }

  /** With one class the residue holds two slots; after 1 the extrema are both 1. */
  predicate TinyStartup(s: Session)
  {
    && Wf(s) && s.state == Busy && s.count == 1 && s.width == 1 && s.offset == 0
    && s.hysteresis == 1 && |s.res| == 2 && s.cnt == 0 && s.counting == FourPoint && !Delaying(s)
    && s.lo.value == 1 && s.hi.value == 1
  }

  /** After 1, 3 (hysteresis 1) one point is confirmed and 3 is the interim point, rising. */
  lemma TinyTurn(s: Session)
    requires TinyStartup(s)
    ensures QuietFits(s, 3)
    ensures var t := Quiet(s, 3);
            && Wf(t) && t.state == BusyInterim && t.cnt == 1 && t.slope == 1 && t.res[1].value == 3
            && |t.res| == 2 && t.hysteresis == 1
  {
    if Recording(s) {
      QuietRiseTurn(s, 3);
    } else {
      assert QuietFits(s, 3);
    }
  }

  /**
   * With one class the residue holds two slots. After 1, 3 (hysteresis 1)
   * one point is confirmed and 3 is the interim point; the sample 1 then
   * confirms 3 and the guard as written passes, although the new interim
   * point would go to slot 2.
   */
  lemma AppendGuardLetsThroughOverflow(s: Session)
    requires Wf(s) && s.state == Init && s.count == 1 && s.width == 1 && s.offset == 0
    requires s.hysteresis == 1 && |s.res| == 2 && s.cnt == 0 && s.counting == FourPoint && !Delaying(s)
    ensures QuietFits(s, 1) && QuietFits(Quiet(s, 1), 3)
    ensures var t := Quiet(Quiet(s, 1), 3);
            var pt := Stamp(t, 1);
            && Steppable(t.(internal := t.internal.(pos := pt.pos))) && Appends(t.(internal := t.internal.(pos := pt.pos)), pt)
            && AppendGuardAsWritten(t.cnt, |t.res|) && !AppendFits(t.cnt, |t.res|)
  {
    QuietFirst(s, 1);
    TinyTurn(Quiet(s, 1));
  }
}
