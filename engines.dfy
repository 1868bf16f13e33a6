/**
 * The cycle-counting engines over the residue: removal of residue points
 * (`RFC_residue_remove_item`), the 4-point method (`RFC_cycle_find_4ptm`)
 * and the HCM method after Clormann/Seeger (`RFC_cycle_find_hcm`).
 */
module RfcEngines {
  import opened RfcTypes
  import opened RfcSession

  // ---------------------------------------------------------------------
  // RFC_residue_remove_item
  // ---------------------------------------------------------------------

  /** Number of residue slots in use: the confirmed points plus the interim point, if any. */
  function ResidueEnd(s: Session): nat
  {
    s.cnt + InterimSlot(s)
  }

  /** What `RFC_residue_remove_item` asserts, plus the slots its shift loop reads. */
  predicate RemoveFits(s: Session, index: nat, count: nat)
  {
    index + count <= s.cnt && ResidueEnd(s) <= |s.res|
  }

  /**
   * `RFC_residue_remove_item`: delete `count` points at `index`, shifting
   * every later slot in use (the interim point included) down by `count`;
   * slots past the new end keep their old contents.
   */
  function RemoveItem(s: Session, index: nat, count: nat): (r: Session)
    requires RemoveFits(s, index, count)
    ensures r == s.(res := r.res, cnt := s.cnt - count)
    ensures |r.res| == |s.res|
  {
    var end := ResidueEnd(s);
    s.(res := s.res[..index] + s.res[index + count..end] + s.res[end - count..],
       cnt := s.cnt - count)
  }

  /**
   * Removal deletes exactly the `count` points at `index` and keeps the
   * order of the rest; the interim point moves along with the confirmed
   * points; slots from the old end minus `count` on are left as they were.
   */
  lemma RemoveItemEffect(s: Session, index: nat, count: nat)
    requires RemoveFits(s, index, count)
    ensures var r := RemoveItem(s, index, count);
            && Confirmed(r) == s.res[..index] + s.res[index + count..s.cnt]
            && (s.state == BusyInterim ==> r.res[r.cnt] == s.res[s.cnt])
            && (forall i :: 0 <= i < |s.res| ==>
                  r.res[i] == if i < index then s.res[i]
                              else if i < ResidueEnd(s) - count then s.res[i + count]
                              else s.res[i])
  {
    var r := RemoveItem(s, index, count);
    ShiftIndex(s.res, index, count, ResidueEnd(s));
    assert Confirmed(r) == s.res[..index] + s.res[index + count..s.cnt];
  }

  /** Index arithmetic of the shift: a slot before the gap, inside the moved part, or past it. */
  lemma ShiftIndex<T>(a: seq<T>, index: nat, count: nat, end: nat)
    requires index + count <= end <= |a|
    ensures var b := a[..index] + a[index + count..end] + a[end - count..];
            && |b| == |a|
            && forall i :: 0 <= i < |a| ==>
                 b[i] == if i < index then a[i] else if i < end - count then a[i + count] else a[i]
  {
  }

  // ---------------------------------------------------------------------
  // RFC_cycle_find_4ptm
  // ---------------------------------------------------------------------

  /**
   * The 4-point closing test: the inner pair B, C lies within the range
   * spanned by the outer pair A, D.
   */
  predicate Enclosed(a: int, b: int, c: int, d: int)
  {
    Min(a, d) <= Min(b, c) && Max(b, c) <= Max(a, d)
  }

  /**
   * The test as the source performs it: order the inner pair B, C and the
   * outer pair A, D, then close when A <= B and C <= D. Equivalently, both
   * inner points lie between the outer ones.
   */
  lemma EnclosedAsSwapped(a: int, b: int, c: int, d: int)
    ensures var lo, hi := if b > c then c else b, if b > c then b else c;
            var a1, d1 := if a > d then d else a, if a > d then a else d;
            Enclosed(a, b, c, d) <==> a1 <= lo && hi <= d1
    ensures Enclosed(a, b, c, d) <==> Min(a, d) <= b <= Max(a, d) && Min(a, d) <= c <= Max(a, d)
  {
  }

  /** The last four confirmed points close a cycle. */
  predicate Closable4(s: Session)
    requires s.cnt <= |s.res|
  {
    s.cnt >= 4 &&
    var idx := s.cnt - 4;
    Enclosed(s.res[idx].value, s.res[idx + 1].value, s.res[idx + 2].value, s.res[idx + 3].value)
  }

  /** One closing step stays within the asserts of the aggregator and inside the residue. */
  predicate Close4Fits(s: Session)
  {
    && Sized(s) && Closable4(s) && ResidueEnd(s) <= |s.res|
    && ProcessFits(s, s.res[s.cnt - 3], s.res[s.cnt - 2])
  }

  /**
   * One closing step of the 4-point method: count the inner pair as a
   * full cycle, move the last confirmed point (and the interim point)
   * down over it and drop two points.
   */
  function Close4(s: Session): (r: Session)
    requires Close4Fits(s)
    ensures Sized(r) && r.cnt == s.cnt - 2 && |r.res| == |s.res|
    ensures CountsOnly(s, r) && r.stack == s.stack && r.iz == s.iz && r.ir == s.ir
  {
    var idx := s.cnt - 4;
    var p := Process(s, s.res[idx + 1], s.res[idx + 2]);
    var res1 := p.res[idx + 1 := p.res[idx + 3]];
    var res2 := if s.state == BusyInterim then res1[idx + 2 := res1[idx + 4]] else res1;
    p.(res := res2, cnt := s.cnt - 2)
  }

  /**
   * A closing step is the aggregator applied to the inner pair followed by
   * the removal of those two points from the residue.
   */
  lemma Close4IsRemoval(s: Session)
    requires Close4Fits(s)
    ensures var p := Process(s, s.res[s.cnt - 3], s.res[s.cnt - 2]);
            RemoveFits(p, s.cnt - 3, 2) && Close4(s) == RemoveItem(p, s.cnt - 3, 2)
  {
    var p := Process(s, s.res[s.cnt - 3], s.res[s.cnt - 2]);
    assert p.res == s.res && p.cnt == s.cnt && p.state == s.state;
    RemoveItemEffect(p, s.cnt - 3, 2);
    var a, b := Close4(s), RemoveItem(p, s.cnt - 3, 2);
    forall i | 0 <= i < |a.res|
      ensures a.res[i] == b.res[i]
    {
    }
    assert a.res == b.res;
  }

  /** The 4-point method may run to completion within the asserts. */
  predicate Find4Fits(s: Session)
    decreases s.cnt
  {
    Sized(s) && (Closable4(s) ==> Close4Fits(s) && Find4Fits(Close4(s)))
  }

  /** `RFC_cycle_find_4ptm`: close cycles at the end of the residue while the test holds. */
  function Find4(s: Session): (r: Session)
    requires Find4Fits(s)
    ensures Sized(r) && !Closable4(r)
    ensures r.cnt <= s.cnt && (s.cnt - r.cnt) % 2 == 0 && |r.res| == |s.res|
    ensures r.cnt < s.cnt ==> r.cnt >= 2
    ensures CountsOnly(s, r) && r.stack == s.stack && r.iz == s.iz && r.ir == s.ir
    decreases s.cnt
  {
    if Closable4(s) then Find4(Close4(s)) else s
  }

  /** The cycles the 4-point method closes, in the order it closes them. */
  function Find4Cycles(s: Session): (cs: seq<Cycle>)
    requires Find4Fits(s)
    ensures |cs| == (s.cnt - Find4(s).cnt) / 2
    decreases s.cnt
  {
    if Closable4(s) then [Cycle(s.res[s.cnt - 3], s.res[s.cnt - 2])] + Find4Cycles(Close4(s))
    else []
  }

  /**
   * The 4-point method counts exactly the cycles it closes, in order, and
   * changes nothing else but the residue.
   */
  lemma {:induction false} Find4Counts(s: Session)
    requires Find4Fits(s)
    ensures ProcessAllFits(s, Find4Cycles(s))
    ensures var r := Find4(s);
            r == ProcessAll(s, Find4Cycles(s)).(res := r.res, cnt := r.cnt)
    decreases s.cnt
  {
    if Closable4(s) {
      var t := Close4(s);
      var c := Cycle(s.res[s.cnt - 3], s.res[s.cnt - 2]);
      var p := Process(s, c.from, c.to);
      Find4Counts(t);
      assert SameCounters(t, p);
      ProcessAllFrame(t, p, Find4Cycles(t));
      assert Find4Cycles(s) == [c] + Find4Cycles(t);
      assert ([c] + Find4Cycles(t))[1..] == Find4Cycles(t);
    }
  }

  /**
   * Points below the last one that survives are never touched, and with
   * no interim point the slots past the new end are never written either.
   */
  lemma {:induction false} Find4KeepsPrefix(s: Session)
    requires Find4Fits(s)
    ensures var r := Find4(s);
            r.cnt < s.cnt ==> r.res[..r.cnt - 1] == s.res[..r.cnt - 1]
    ensures Find4(s).cnt == s.cnt ==> Find4(s) == s
    decreases s.cnt
  {
    if Closable4(s) {
      var t := Close4(s);
      Find4KeepsPrefix(t);
      assert t.res[..t.cnt - 1] == s.res[..t.cnt - 1];
    }
  }

  // ---------------------------------------------------------------------
  // RFC_cycle_find_hcm
  // ---------------------------------------------------------------------

  /** The HCM stack cursors as the search loop keeps them: base 0, -1 for "empty". */
  datatype Cursors = Cursors(iz: int, ir: int)

  /** Cursor ranges inside the closing loop: IR at least 1 (seeded), IZ a stack slot or -1. */
  predicate CursorsOk(c: Cursors, stackLen: nat)
  {
    1 <= c.ir && -1 <= c.iz < stackLen
  }

  /** Between points the top of the stack is at or above the residual level: IZ >= IR - 1. */
  predicate Settled(c: Cursors, stackLen: nat)
  {
    CursorsOk(c, stackLen) && c.ir - 1 <= c.iz
  }

  /** K does not reverse at J: the stack point J is no turning point between I and K. */
  predicate NoTurn(i: Tuple, j: Tuple, k: Tuple)
  {
    (k.value - j.value) * (j.value - i.value) >= 0
  }

  /** At the residual level, K does not reverse at J against zero. */
  predicate NoTurnAtResidual(j: Tuple, k: Tuple)
  {
    (k.value - j.value) * j.value >= 0
  }

  /**
   * The closing loop of HCM (label 2): pop points that are no turning
   * points, close a cycle I-J whenever the new point K reverses with a
   * range at least that of I-J, and at the residual level IR compare K
   * with the stack point against zero.
   */
  function Label2(stack: seq<Tuple>, c: Cursors, k: Tuple): (r: (Cursors, seq<Cycle>))
    requires CursorsOk(c, |stack|)
    ensures CursorsOk(r.0, |stack|) && r.0.iz <= c.iz && c.ir <= r.0.ir <= c.ir + 1
    ensures Settled(c, |stack|) ==> Settled(r.0, |stack|)
    ensures c.iz < c.ir ==> r == (c, [])
    decreases c.iz + 1
  {
    if c.iz > c.ir then
      var i, j := stack[c.iz - 1], stack[c.iz];
      if NoTurn(i, j, k) then
        Label2(stack, c.(iz := c.iz - 1), k)
      else if Abs(k.value - j.value) >= Abs(j.value - i.value) then
        var rest := Label2(stack, c.(iz := c.iz - 2), k);
        (rest.0, [Cycle(i, j)] + rest.1)
      else
        (c, [])
    else if c.iz == c.ir then
      var j := stack[c.iz];
      if NoTurnAtResidual(j, k) then
        (c.(iz := c.iz - 1), [])
      else if Abs(k.value) > Abs(j.value) then
        (c.(ir := c.ir + 1), [])
      else
        (c, [])
    else
      (c, [])
  }

  /**
   * Every cycle HCM closes against a new point K is a true reversal at
   * its end point J, and K reaches at least as far from J as I does.
   */
  lemma {:induction false} Label2Closes(stack: seq<Tuple>, c: Cursors, k: Tuple)
    requires CursorsOk(c, |stack|)
    ensures forall cy :: cy in Label2(stack, c, k).1 ==>
              && (k.value - cy.to.value) * (cy.to.value - cy.from.value) < 0
              && Abs(k.value - cy.to.value) >= Abs(cy.to.value - cy.from.value)
    ensures forall cy :: cy in Label2(stack, c, k).1 ==> cy.from in stack && cy.to in stack
    decreases c.iz + 1
  {
    if c.iz > c.ir {
      var i, j := stack[c.iz - 1], stack[c.iz];
      if NoTurn(i, j, k) {
        Label2Closes(stack, c.(iz := c.iz - 1), k);
      } else if Abs(k.value - j.value) >= Abs(j.value - i.value) {
        Label2Closes(stack, c.(iz := c.iz - 2), k);
      }
    }
  }

  /**
   * What the two stack tests mean: J is no turning point between I and K
   * exactly when I-J-K does not reverse at J, and at the residual level
   * exactly when 0-J-K does not.
   */
  lemma NoTurnIsNoReversal(i: Tuple, j: Tuple, k: Tuple)
    ensures NoTurn(i, j, k) <==>
              !((i.value < j.value && k.value < j.value) || (i.value > j.value && k.value > j.value))
    ensures NoTurnAtResidual(j, k) <==>
              !((0 < j.value && k.value < j.value) || (j.value < 0 && k.value > j.value))
  {
  }

  /**
   * Label 2 has nothing left to test at the cursors `d`: no pair is left
   * above the residual level, or the top pair I-J reverses at J but K
   * reaches less far from J than I does, or at the residual level J
   * reverses against zero while K does not reach beyond J.
   */
  predicate Halted(stack: seq<Tuple>, d: Cursors, k: Tuple)
    requires CursorsOk(d, |stack|)
  {
    || d.iz < d.ir
    || (&& d.iz == d.ir
        && !NoTurnAtResidual(stack[d.iz], k)
        && Abs(k.value) <= Abs(stack[d.iz].value))
    || (&& d.iz > d.ir
        && !NoTurn(stack[d.iz - 1], stack[d.iz], k)
        && Abs(k.value - stack[d.iz].value) < Abs(stack[d.iz].value - stack[d.iz - 1].value))
  }

  /**
   * Label 2 stops only where it has nothing left to test. Together with
   * `Label2Closes` this is the closing rule in both directions.
   */
  lemma {:induction false} Label2Stops(stack: seq<Tuple>, c: Cursors, k: Tuple)
    requires CursorsOk(c, |stack|)
    ensures Halted(stack, Label2(stack, c, k).0, k)
    decreases c.iz + 1
  {
    if c.iz > c.ir {
      var i, j := stack[c.iz - 1], stack[c.iz];
      if NoTurn(i, j, k) {
        var c' := c.(iz := c.iz - 1);
        Label2Stops(stack, c', k);
        assert Label2(stack, c, k).0 == Label2(stack, c', k).0;
      } else if Abs(k.value - j.value) >= Abs(j.value - i.value) {
        var c' := c.(iz := c.iz - 2);
        Label2Stops(stack, c', k);
        assert Label2(stack, c, k).0 == Label2(stack, c', k).0;
      } else {
        assert Label2(stack, c, k).0 == c;
      }
    }
  }

  /** The cursors of an empty HCM stack, before any point (base-1 IZ = 0, IR = 1). */
  predicate Unseeded(c: Cursors, stackLen: nat)
  {
    c == Cursors(-1, 0) && stackLen >= 1
  }

  /** The cursors after seeding the stack with the very first point. */
  function Seed(stack: seq<Tuple>, c: Cursors, k: Tuple): (r: (seq<Tuple>, Cursors))
    requires Unseeded(c, |stack|) || Settled(c, |stack|)
    ensures |r.0| == |stack| && CursorsOk(r.1, |stack|)
    ensures Settled(r.1, |stack|) || r.1 == Cursors(-1, 1)
    ensures Unseeded(c, |stack|) ==> r.1 == Cursors(-1, 1) && r.0[0] == k
  {
    if c.ir == 0 then (stack[0 := k], c.(ir := 1)) else (stack, c)
  }

  /** HCM's treatment of one point may proceed: the stack has room for the push. */
  predicate HcmStepFits(stack: seq<Tuple>, c: Cursors, k: Tuple)
  {
    && (Unseeded(c, |stack|) || Settled(c, |stack|))
    && var sd := Seed(stack, c, k);
       Label2(sd.0, sd.1, k).0.iz + 1 < |stack|
  }

  /** The stack, the cursors and the closed cycles after HCM has taken one point K. */
  datatype Step = Step(stack: seq<Tuple>, cursors: Cursors, cycles: seq<Cycle>)

  /** One pass of HCM's main loop without the residue: seed, close, push K. */
  function HcmStep(stack: seq<Tuple>, c: Cursors, k: Tuple): (r: Step)
    requires HcmStepFits(stack, c, k)
    ensures |r.stack| == |stack| && Settled(r.cursors, |stack|) && r.cursors.iz >= 0
    ensures r.stack[r.cursors.iz] == k
  {
    var sd := Seed(stack, c, k);
    var l := Label2(sd.0, sd.1, k);
    var top := l.0.iz + 1;
    Step(sd.0[top := k], l.0.(iz := top), l.1)
  }

  /** HCM can take every confirmed point of the residue within the asserts. */
  predicate HcmFits(s: Session, c: Cursors)
    decreases s.cnt
  {
    && Sized(s) && ResidueEnd(s) <= |s.res|
    && (s.cnt > 0 ==>
          && HcmStepFits(s.stack, c, s.res[0])
          && var st := HcmStep(s.stack, c, s.res[0]);
             && ProcessAllFits(s, st.cycles)
             && var p := ProcessAll(s, st.cycles).(hcm := s.hcm.(stack := st.stack));
                HcmFits(RemoveItem(p, 0, 1), st.cursors))
  }

  /** The main loop of `RFC_cycle_find_hcm` with local base-0 cursors. */
  function HcmLoop(s: Session, c: Cursors): (r: (Session, Cursors))
    requires HcmFits(s, c)
    ensures Sized(r.0) && r.0.cnt == 0 && |r.0.stack| == |s.stack| && |r.0.res| == |s.res|
    ensures CountsOnly(s, r.0) && r.0.iz == s.iz && r.0.ir == s.ir
    ensures s.cnt > 0 ==> Settled(r.1, |s.stack|) && r.1.iz >= 0
    ensures s.cnt == 0 ==> r == (s, c)
    ensures s.state == BusyInterim ==> r.0.res[0] == s.res[s.cnt]
    decreases s.cnt
  {
    if s.cnt == 0 then (s, c)
    else
      var st := HcmStep(s.stack, c, s.res[0]);
      var p := ProcessAll(s, st.cycles).(hcm := s.hcm.(stack := st.stack));
      RemoveItemEffect(p, 0, 1);
      HcmLoop(RemoveItem(p, 0, 1), st.cursors)
  }

  /** The cycles HCM closes while it takes every confirmed point, in order. */
  function HcmCycles(s: Session, c: Cursors): seq<Cycle>
    requires HcmFits(s, c)
    decreases s.cnt
  {
    if s.cnt == 0 then []
    else
      var st := HcmStep(s.stack, c, s.res[0]);
      var p := ProcessAll(s, st.cycles).(hcm := s.hcm.(stack := st.stack));
      st.cycles + HcmCycles(RemoveItem(p, 0, 1), st.cursors)
  }

  /**
   * HCM counts exactly the cycles it closes, in order, and changes nothing
   * else but the residue and the stack.
   */
  lemma {:induction false} HcmCounts(s: Session, c: Cursors)
    requires HcmFits(s, c)
    ensures ProcessAllFits(s, HcmCycles(s, c))
    ensures var r := HcmLoop(s, c).0;
            r == ProcessAll(s, HcmCycles(s, c)).(res := r.res, cnt := r.cnt, hcm := s.hcm.(stack := r.stack))
    decreases s.cnt
  {
    if s.cnt > 0 {
      var st := HcmStep(s.stack, c, s.res[0]);
      var q := ProcessAll(s, st.cycles);
      var t := RemoveItem(q.(hcm := q.hcm.(stack := st.stack)), 0, 1);
      var rest := HcmCycles(t, st.cursors);
      HcmCounts(t, st.cursors);
      assert SameCounters(q, t);
      ProcessAllFrame(t, q, rest);
      ProcessAllAppend(s, st.cycles, rest);
    }
  }

  /** The cursors a session stores (base 1) as the search loop uses them (base 0). */
  function Local(s: Session): Cursors
  {
    Cursors(s.iz - 1, s.ir - 1)
  }

  /**
   * `RFC_cycle_find_hcm`: feed every confirmed point through HCM, leaving
   * an empty residue (only the interim point, moved to the front) and the
   * base-1 cursors stored back in the session.
   */
  function HcmFind(s: Session): (r: Session)
    requires HcmFits(s, Local(s))
    ensures Sized(r) && r.cnt == 0 && CountsOnly(s, r) && |r.res| == |s.res| && |r.stack| == |s.stack|
    ensures s.state == BusyInterim ==> r.res[0] == s.res[s.cnt]
  {
    var l := HcmLoop(s, Local(s));
    l.0.(hcm := l.0.hcm.(iz := (l.1.iz + 1) as nat, ir := (l.1.ir + 1) as nat))
  }

  /** One pass of HCM's main loop: the session and cursors it hands on, and what it keeps of the residue. */
  lemma HcmNext(s: Session, c: Cursors) returns (t: Session, cur: Cursors)
    requires HcmFits(s, c) && s.cnt > 0
    ensures HcmFits(t, cur) && t.cnt == s.cnt - 1 && HcmLoop(s, c) == HcmLoop(t, cur)
    ensures t.cnt > 0 ==> t.res[t.cnt - 1] == s.res[s.cnt - 1]
    ensures 0 <= cur.iz < |t.stack| && t.stack[cur.iz] == s.res[0]
  {
    var st := HcmStep(s.stack, c, s.res[0]);
    var p := ProcessAll(s, st.cycles).(hcm := s.hcm.(stack := st.stack));
    RemoveItemEffect(p, 0, 1);
    t, cur := RemoveItem(p, 0, 1), st.cursors;
    assert t.stack == st.stack && p.res == s.res;
    if t.cnt > 0 {
      assert t.res[t.cnt - 1] == p.res[t.cnt - 1 + 1];
    }
  }

  /** After HCM the last confirmed point sits on top of the stack. */
  lemma {:induction false} HcmLoopTop(s: Session, c: Cursors)
    requires HcmFits(s, c) && s.cnt > 0
    ensures var r := HcmLoop(s, c);
            0 <= r.1.iz < |r.0.stack| && r.0.stack[r.1.iz] == s.res[s.cnt - 1]
    decreases s.cnt
  {
    var t, cur := HcmNext(s, c);
    if t.cnt > 0 {
      HcmLoopTop(t, cur);
    }
  }

  /** After `RFC_cycle_find_hcm` the last confirmed point sits on top of the stack, at base-1 cursor IZ. */
  lemma HcmFindTop(s: Session)
    requires HcmFits(s, Local(s)) && s.cnt > 0
    ensures var r := HcmFind(s);
            1 <= r.iz <= |r.stack| && r.stack[r.iz - 1] == s.res[s.cnt - 1]
  {
    var l := HcmLoop(s, Local(s));
    HcmLoopTop(s, Local(s));
    var r := HcmFind(s);
    assert r.hcm == l.0.hcm.(iz := (l.1.iz + 1) as nat, ir := (l.1.ir + 1) as nat);
    assert r.stack == l.0.stack && r.iz - 1 == l.1.iz;
  }
}
