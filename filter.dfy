/**
 * The turning-point filter (`RFC_tp_next`): hysteresis and peak/valley
 * filtering with O(1) state, the slope, the local extrema and an interim
 * point kept in the residue slot `res[cnt]`.
 */
module RfcFilter {
  import opened RfcTypes
  import opened RfcSession

  /**
   * The guard the source places before appending a turning point
   * (rainflow.c:1373): `residue_cnt < residue_cap`.
   */
  predicate AppendGuardAsWritten(cnt: nat, cap: nat)
  {
    cnt < cap
  }

  /**
   * What the append needs: it writes the new interim point to slot
   * `cnt + 1`, so that slot must exist.
   */
  predicate AppendFits(cnt: nat, cap: nat)
  {
    cnt + 1 < cap
  }

  /**
   * The guard as written lets through the one case where slot `cnt + 1` is
   * missing. `RfcTraces.AppendGuardLetsThroughOverflow` shows a run of
   * samples that reaches this case.
   */
  lemma AppendGuardAsWrittenTooWeak()
    ensures AppendGuardAsWritten(1, 2) && !AppendFits(1, 2)
    ensures exists cnt: nat, cap: nat :: AppendGuardAsWritten(cnt, cap) && cnt + 1 >= cap
  {
    assert AppendGuardAsWritten(1, 2) && 1 + 1 >= 2;
  }

  /** Local extrema after one startup sample, the direction and whether they changed. */
  datatype Startup = Startup(lo: Tuple, hi: Tuple, falling: bool, changed: bool)

  /**
   * The startup update of the local minimum and maximum. When neither
   * changes the source leaves `is_falling_slope` unset; the model puts
   * `false` there, and `StartupUnchangedEmitsNothing` shows it is never used.
   */
  function UpdateExtrema(s: Session, pt: Tuple): (e: Startup)
    ensures e.lo.value <= s.lo.value && e.hi.value >= s.hi.value
    ensures e.changed ==> (e.falling <==> e.lo == pt && pt.value < s.lo.value)
  {
    if pt.value < s.lo.value then Startup(pt, s.hi, true, true)
    else if pt.value > s.hi.value then Startup(s.lo, pt, false, true)
    else Startup(s.lo, s.hi, false, s.extremaChanged)
  }

  /** `r` differs from `s` at most in the filter state and the residue. */
  ghost predicate FilterOnly(s: Session, r: Session)
  {
    r == s.(res := r.res, cnt := r.cnt, internal := s.internal.(slope := r.slope, lo := r.lo, hi := r.hi, extremaChanged := r.extremaChanged), state := r.state)
  }

  /**
   * A state in which `RFC_tp_next` may be called (rainflow.c:1229). The
   * hysteresis must not be negative: otherwise a startup sample that moves
   * neither extremum still exceeds it, and the branch reads a direction
   * that was never set.
   */
  predicate Steppable(s: Session)
  {
    Wf(s) && s.state in {Init, Busy, BusyInterim} && s.hysteresis >= 0
  }

  /** The sample confirms a turning point. */
  predicate Appends(s: Session, pt: Tuple)
    requires Steppable(s)
  {
    match s.state
    case Busy =>
      var e := UpdateExtrema(s, pt);
      ValueDelta(e.lo.value, e.hi.value).magnitude > s.hysteresis
    case BusyInterim =>
      var d := ValueDelta(s.res[s.cnt].value, pt.value);
      d.sign != s.slope && d.magnitude > s.hysteresis
    case _ => false
  }

  /** `RFC_tp_next` stays inside the residue buffer. */
  predicate TpNextFits(s: Session, pt: Tuple)
  {
    Steppable(s) && (Appends(s, pt) ==> AppendFits(s.cnt, |s.res|))
  }

  /**
   * Confirm the interim point `res[cnt]` and make `pt` the new interim
   * point; the confirmed point is returned.
   */
  function Append(s: Session, pt: Tuple): (r: (Session, Option<Tuple>))
    requires s.cnt + 1 < |s.res|
    ensures r.0 == s.(res := r.0.res, cnt := s.cnt + 1)
    ensures r.0.res == s.res[s.cnt + 1 := pt]
    ensures r.1 == Some(s.res[s.cnt])
  {
    var t := s.(res := s.res[s.cnt + 1 := pt], cnt := s.cnt + 1);
    (t, Some(t.res[t.cnt - 1]))
  }

  /** The startup branch of `RFC_tp_next`: track the extrema until they span more than the hysteresis. */
  function TpNextBusy(s: Session, pt: Tuple): (r: (Session, Option<Tuple>))
    requires TpNextFits(s, pt) && s.state == Busy
    ensures Wf(r.0) && r.0.state in {Busy, BusyInterim} && FilterOnly(s, r.0) && |r.0.res| == |s.res|
    ensures r.1.Some? <==> Appends(s, pt)
    ensures r.0.cnt == s.cnt + (if r.1.Some? then 1 else 0)
    ensures r.1.Some? ==> r.0.state == BusyInterim && r.0.res[r.0.cnt] == pt
  {
    var e := UpdateExtrema(s, pt);
    var s1 := s.(internal := s.internal.(lo := e.lo, hi := e.hi, extremaChanged := e.changed));
    if ValueDelta(e.lo.value, e.hi.value).magnitude > s.hysteresis then
      var first := if e.falling then e.hi else e.lo;
      var s2 := s1.(res := s1.res[s.cnt := first], internal := s1.internal.(slope := if e.falling then -1 else 1), state := BusyInterim);
      Append(s2, pt)
    else
      (s1, None)
  }

  /** The steady branch of `RFC_tp_next`: compare the sample with the interim point. */
  function TpNextInterim(s: Session, pt: Tuple): (r: (Session, Option<Tuple>))
    requires TpNextFits(s, pt) && s.state == BusyInterim
    ensures Wf(r.0) && r.0.state == BusyInterim && FilterOnly(s, r.0) && |r.0.res| == |s.res|
    ensures r.1.Some? <==> Appends(s, pt)
    ensures r.0.cnt == s.cnt + (if r.1.Some? then 1 else 0)
    ensures r.1.Some? ==> r.0.res[r.0.cnt] == pt
  {
    var d := ValueDelta(s.res[s.cnt].value, pt.value);
    if d.sign == s.slope then
      (if s.res[s.cnt].value != pt.value then s.(res := s.res[s.cnt := pt]) else s, None)
    else if d.magnitude > s.hysteresis then
      Append(s.(internal := s.internal.(slope := d.sign)), pt)
    else
      (s, None)
  }

  /** `RFC_tp_next`: feed one sample to the filter; a confirmed turning point is returned. */
  function TpNext(s: Session, pt: Tuple): (r: (Session, Option<Tuple>))
    requires TpNextFits(s, pt)
    ensures Wf(r.0) && r.0.state in {Busy, BusyInterim} && FilterOnly(s, r.0) && |r.0.res| == |s.res|
    ensures r.1.Some? <==> Appends(s, pt)
    ensures r.0.cnt == s.cnt + (if r.1.Some? then 1 else 0)
    ensures r.1.Some? ==> r.0.state == BusyInterim && r.0.res[r.0.cnt] == pt
  {
    match s.state
    case Init => (s.(internal := s.internal.(lo := pt, hi := pt), state := Busy), None)
    case Busy => TpNextBusy(s, pt)
    case BusyInterim => TpNextInterim(s, pt)
  }

  /** A startup sample that moves neither extremum never confirms a point. */
  lemma StartupUnchangedEmitsNothing(s: Session, pt: Tuple)
    requires Steppable(s) && s.state == Busy
    requires s.lo.value <= pt.value <= s.hi.value
    ensures !Appends(s, pt)
  {
  }

  /** The very first sample seeds both extrema, emits nothing and starts the search. */
  lemma TpNextFirstSample(s: Session, pt: Tuple)
    requires TpNextFits(s, pt) && s.state == Init
    ensures TpNext(s, pt) == (s.(internal := s.internal.(lo := pt, hi := pt), state := Busy), None)
  {
  }

  /**
   * During startup nothing is emitted until the extrema are more than the
   * hysteresis apart; then the earlier extremum (the one the sample did
   * not replace) is confirmed as the first turning point, the sample
   * becomes the interim point and the slope points towards it.
   */
  lemma TpNextStartup(s: Session, pt: Tuple)
    requires TpNextFits(s, pt) && s.state == Busy
    ensures var r := TpNext(s, pt);
            var lo, hi := Min(s.lo.value, pt.value), Max(s.hi.value, pt.value);
            && (hi - lo <= s.hysteresis ==> r.1 == None && r.0.state == Busy && r.0.cnt == s.cnt)
            && (hi - lo > s.hysteresis ==>
                  && r.0.state == BusyInterim && r.0.cnt == s.cnt + 1
                  && r.0.res[s.cnt + 1] == pt
                  && (pt.value < s.lo.value ==> r.1 == Some(s.hi) && r.0.slope == -1)
                  && (pt.value > s.hi.value ==> r.1 == Some(s.lo) && r.0.slope == 1)
                  && r.0.res[..s.cnt] == s.res[..s.cnt])
  {
  }

  /** Same direction as the last slope: the interim point follows the sample, nothing is emitted. */
  lemma TpNextContinue(s: Session, pt: Tuple)
    requires TpNextFits(s, pt) && s.state == BusyInterim
    requires ValueDelta(s.res[s.cnt].value, pt.value).sign == s.slope
    ensures var r := TpNext(s, pt);
            && r.1 == None && r.0.cnt == s.cnt && r.0.slope == s.slope
            && r.0.res[r.0.cnt].value == pt.value
            && r.0 == s.(res := r.0.res)
            && r.0.res[..s.cnt] == s.res[..s.cnt]
            && r.0.res[s.cnt + 1..] == s.res[s.cnt + 1..]
  {
  }

  /**
   * A reversal larger than the hysteresis confirms the interim point: it
   * is returned, the count grows by one, the new slope is stored and the
   * sample becomes the interim point.
   */
  lemma TpNextConfirm(s: Session, pt: Tuple)
    requires TpNextFits(s, pt) && s.state == BusyInterim
    requires var d := ValueDelta(s.res[s.cnt].value, pt.value);
             d.sign != s.slope && d.magnitude > s.hysteresis
    ensures var r := TpNext(s, pt);
            && r.1 == Some(s.res[s.cnt])
            && r.0.cnt == s.cnt + 1
            && r.0.slope == ValueDelta(s.res[s.cnt].value, pt.value).sign
            && r.0.res[r.0.cnt] == pt
            && Confirmed(r.0) == Confirmed(s) + [s.res[s.cnt]]
  {
    var r := TpNext(s, pt);
    assert Confirmed(r.0) == s.res[..s.cnt + 1];
  }

  /** A reversal within the hysteresis band changes nothing. */
  lemma TpNextWithinBand(s: Session, pt: Tuple)
    requires TpNextFits(s, pt) && s.state == BusyInterim
    requires var d := ValueDelta(s.res[s.cnt].value, pt.value);
             d.sign != s.slope && d.magnitude <= s.hysteresis
    ensures TpNext(s, pt) == (s, None)
  {
  }
}
