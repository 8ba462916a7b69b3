/** Whole runs of the pedestrian-area timers: what they say about the samples seen so far,
    and what the reported status therefore means, in crossing and in waiting mode. */
module PersonAreaRuns {
  import opened PersonArea

  // ---------------------------------------------------------------- histories

  function Step(s: Timers, e: Event): Timers {
    match e
    case Frame(_, _, _, _, _, _) => FrameStep(s, e)
    case Report(_, _, _) => ReportStep(s, e)
  }

  /** The timers after a run that starts from zeroed memory. */
  function After(tr: seq<Event>): Timers {
    if tr == [] then IDLE else Step(After(tr[..|tr| - 1]), tr[|tr| - 1])
  }

  /** The clock readings made inside the lock are positive and never go back. */
  ghost predicate WellTimed(tr: seq<Event>) {
    && (forall i :: 0 <= i < |tr| && tr[i].Frame? ==> tr[i].now > 0)
    && (forall i, j :: 0 <= i <= j < |tr| && tr[i].Frame? && tr[j].Frame? ==> tr[i].now <= tr[j].now)
  }

  ghost predicate AllReports(tr: seq<Event>, mode: nat) {
    forall i :: 0 <= i < |tr| && tr[i].Report? ==> tr[i].mode == mode
  }

  /** Sample `i` of the run, and every later sample, satisfies `c`. */
  ghost predicate HeldFrom(tr: seq<Event>, i: int, c: Condition) {
    && 0 <= i < |tr| && tr[i].Frame?
    && forall j :: i <= j < |tr| && tr[j].Frame? ==> Holds(c, tr[j])
  }

  /** Every sample has satisfied `c` since one that was taken no later than `limit`. */
  ghost predicate HeldSince(tr: seq<Event>, c: Condition, limit: int) {
    exists i :: HeldFrom(tr, i, c) && tr[i].now <= limit
  }

  /** A running timer is the time of a sample since which its condition has held. */
  ghost predicate Linked(tr: seq<Event>, timer: int, c: Condition) {
    timer != 0 ==> timer > 0 && exists i :: HeldFrom(tr, i, c) && tr[i].now == timer
  }

  lemma {:induction false} HeldFromGrows(tr: seq<Event>, e: Event, i: int, c: Condition)
    requires HeldFrom(tr, i, c) && (e.Frame? ==> Holds(c, e))
    ensures HeldFrom(tr + [e], i, c) && (tr + [e])[i] == tr[i]
  {
  }

  lemma {:induction false} HeldFromShrinks(tr: seq<Event>, e: Event, i: int, c: Condition)
    requires HeldFrom(tr + [e], i, c) && i < |tr|
    ensures HeldFrom(tr, i, c) && (tr + [e])[i] == tr[i]
  {
    forall j | i <= j < |tr| && tr[j].Frame? ensures Holds(c, tr[j]) {
      assert (tr + [e])[j] == tr[j];
    }
    assert (tr + [e])[i] == tr[i];
  }

  /** How one event may change a timer: cleared, kept while `c` holds, or started at a
      sample that satisfies `c`. */
  ghost predicate TimerMoves(e: Event, timer: int, timer': int, c: Condition) {
    || timer' == 0
    || (timer' == timer && (e.Frame? ==> Holds(c, e)))
    || (e.Frame? && timer' == e.now && Holds(c, e))
  }

  lemma {:induction false} LinkedStep(tr: seq<Event>, e: Event, timer: int, timer': int, c: Condition)
    requires Linked(tr, timer, c) && (e.Frame? ==> e.now > 0)
    requires TimerMoves(e, timer, timer', c)
    ensures Linked(tr + [e], timer', c)
  {
    if timer' != 0 {
      if timer' == timer && (e.Frame? ==> Holds(c, e)) {
        var i :| HeldFrom(tr, i, c) && tr[i].now == timer;
        HeldFromGrows(tr, e, i, c);
      } else {
        assert HeldFrom(tr + [e], |tr|, c);
      }
    }
  }

  ghost predicate TimersLinked(tr: seq<Event>, s: Timers) {
    && Linked(tr, s.noPerson, Empty)
    && Linked(tr, s.gjNoPerson, Empty)
    && Linked(tr, s.gjHavePerson, Occupied)
    && Linked(tr, s.lineNoPerson, Quiet)
    && Linked(tr, s.startWait, Quiet)
    && Linked(tr, s.startOver, OverLimit)
    && Linked(tr, s.startUnover, UnderLimit)
  }

  ghost predicate TimersMove(e: Event, s: Timers, s': Timers) {
    && TimerMoves(e, s.noPerson, s'.noPerson, Empty)
    && TimerMoves(e, s.gjNoPerson, s'.gjNoPerson, Empty)
    && TimerMoves(e, s.gjHavePerson, s'.gjHavePerson, Occupied)
    && TimerMoves(e, s.lineNoPerson, s'.lineNoPerson, Quiet)
    && TimerMoves(e, s.startWait, s'.startWait, Quiet)
    && TimerMoves(e, s.startOver, s'.startOver, OverLimit)
    && TimerMoves(e, s.startUnover, s'.startUnover, UnderLimit)
  }

  lemma {:induction false} StepMovesTimers(s: Timers, e: Event)
    ensures TimersMove(e, s, Step(s, e))
  {
  }

  lemma {:induction false} AllLinkedStep(tr: seq<Event>, e: Event, s: Timers, s': Timers)
    requires TimersLinked(tr, s) && TimersMove(e, s, s') && (e.Frame? ==> e.now > 0)
    ensures TimersLinked(tr + [e], s')
  {
    LinkedStep(tr, e, s.noPerson, s'.noPerson, Empty);
    LinkedStep(tr, e, s.gjNoPerson, s'.gjNoPerson, Empty);
    LinkedStep(tr, e, s.gjHavePerson, s'.gjHavePerson, Occupied);
    LinkedStep(tr, e, s.lineNoPerson, s'.lineNoPerson, Quiet);
    LinkedStep(tr, e, s.startWait, s'.startWait, Quiet);
    LinkedStep(tr, e, s.startOver, s'.startOver, OverLimit);
    LinkedStep(tr, e, s.startUnover, s'.startUnover, UnderLimit);
  }

  /** In every run, whatever the reporting modes and plans, all seven timers tell the
      truth about the samples seen so far. */
  lemma {:induction false} TimersTellHistory(tr: seq<Event>)
    requires WellTimed(tr)
    ensures TimersLinked(tr, After(tr))
  {
    if tr != [] {
      var rest, e := tr[..|tr| - 1], tr[|tr| - 1];
      TimersTellHistory(rest);
      assert tr == rest + [e];
      StepMovesTimers(After(rest), e);
      AllLinkedStep(rest, e, After(rest), After(tr));
    }
  }

  lemma {:induction false} Incompatible(tr: seq<Event>, i: int, j: int, c: Condition, d: Condition)
    requires (c == Occupied && d == Empty) || (c == OverLimit && d == UnderLimit)
    requires HeldFrom(tr, i, c)
    ensures !HeldFrom(tr, j, d)
  {
    if 0 <= j < |tr| && tr[j].Frame? {
      var k := if i < j then j else i;
      assert Holds(c, tr[k]);
      assert !Holds(d, tr[k]);
    }
  }

  /** Opposite timers are never both running. */
  lemma {:induction false} OppositeTimersExclude(tr: seq<Event>)
    requires WellTimed(tr)
    ensures After(tr).gjHavePerson == 0 || After(tr).gjNoPerson == 0
    ensures After(tr).startOver == 0 || After(tr).startUnover == 0
  {
    TimersTellHistory(tr);
    var s := After(tr);
    if s.gjHavePerson != 0 && s.gjNoPerson != 0 {
      var i :| HeldFrom(tr, i, Occupied) && tr[i].now == s.gjHavePerson;
      var j :| HeldFrom(tr, j, Empty) && tr[j].now == s.gjNoPerson;
      Incompatible(tr, i, j, Occupied, Empty);
    }
    if s.startOver != 0 && s.startUnover != 0 {
      var i :| HeldFrom(tr, i, OverLimit) && tr[i].now == s.startOver;
      var j :| HeldFrom(tr, j, UnderLimit) && tr[j].now == s.startUnover;
      Incompatible(tr, i, j, OverLimit, UnderLimit);
    }
  }

  lemma {:induction false} LinkedGivesSince(tr: seq<Event>, timer: int, c: Condition, limit: int)
    requires Linked(tr, timer, c) && timer != 0 && timer <= limit
    ensures HeldSince(tr, c, limit)
  {
    var i :| HeldFrom(tr, i, c) && tr[i].now == timer;
  }

  /** "Nobody for a long time" is only ever sent when that is so. */
  lemma {:induction false} NobodyForLong(tr: seq<Event>, e: Event)
    requires WellTimed(tr) && e.Report? && PersonStatus(After(tr), e) == 2
    ensures HeldSince(tr, Empty, e.ms - e.plan.noPersonTime * 1000)
  {
    TimersTellHistory(tr);
    LinkedGivesSince(tr, After(tr).noPerson, Empty, e.ms - e.plan.noPersonTime * 1000);
  }

  // ---------------------------------------------------------------- crossing mode

  /** The status a crossing area should show, from the samples alone: on once people
      have been there for `overTime`, off once nobody has been, otherwise as before. */
  ghost function Hysteresis(tr: seq<Event>): nat {
    if tr == [] then 0
    else
      var rest, e := tr[..|tr| - 1], tr[|tr| - 1];
      if e.Frame? then Hysteresis(rest)
      else if HeldSince(rest, Occupied, e.ms - e.plan.overTime * 1000) then 1
      else if HeldSince(rest, Empty, e.ms - e.plan.overTime * 1000) then 0
      else Hysteresis(rest)
  }

  /** Any stretch in which `c` has held is either covered by the running timer or has
      already produced the status `v`. */
  ghost predicate Covered(tr: seq<Event>, c: Condition, timer: int, done: bool) {
    forall i :: HeldFrom(tr, i, c) ==> (0 < timer <= tr[i].now) || done
  }

  lemma {:induction false} CoveredByFrame(tr: seq<Event>, e: Event, c: Condition, timer: int, done: bool)
    requires WellTimed(tr + [e]) && e.Frame?
    requires Linked(tr, timer, c) && Covered(tr, c, timer, done)
    ensures Covered(tr + [e], c, Track(c, timer, e), done)
  {
    var tr' := tr + [e];
    assert tr'[|tr|] == e;
    forall i | HeldFrom(tr', i, c)
      ensures (0 < Track(c, timer, e) <= tr'[i].now) || done
    {
      assert Holds(c, e);
      if i < |tr| {
        HeldFromShrinks(tr, e, i, c);
      } else if timer != 0 {
        var k :| HeldFrom(tr, k, c) && tr[k].now == timer;
        assert tr'[k] == tr[k];
      }
    }
  }

  lemma {:induction false} CoveredByReport(tr: seq<Event>, e: Event, c: Condition, timer: int, done: bool, timer': int, done': bool)
    requires e.Report? && Covered(tr, c, timer, done)
    requires forall i :: HeldFrom(tr, i, c) ==> (timer' == timer || done') && (done ==> done')
    ensures Covered(tr + [e], c, timer', done')
  {
    forall i | HeldFrom(tr + [e], i, c)
      ensures (0 < timer' <= (tr + [e])[i].now) || done'
    {
      assert i < |tr| by { assert (tr + [e])[|tr|] == e; }
      HeldFromShrinks(tr, e, i, c);
    }
  }

  /** A timer reaches its limit, or the alarm it drives is already set, exactly when its
      condition has held that long. */
  lemma {:induction false} CoveredIsSince(tr: seq<Event>, c: Condition, timer: int, done: bool, limit: int)
    requires Linked(tr, timer, c) && Covered(tr, c, timer, done)
    ensures 0 < timer <= limit ==> HeldSince(tr, c, limit)
    ensures HeldSince(tr, c, limit) ==> 0 < timer <= limit || done
  {
    if 0 < timer <= limit {
      LinkedGivesSince(tr, timer, c, limit);
    }
  }

  ghost predicate CrossingInv(tr: seq<Event>, s: Timers) {
    && s.prevSend == Hysteresis(tr) <= 1
    && Covered(tr, Occupied, s.gjHavePerson, s.prevSend == 1)
    && Covered(tr, Empty, s.gjNoPerson, s.prevSend == 0)
  }

  lemma {:induction false} CrossingInvariant(tr: seq<Event>)
    requires WellTimed(tr) && AllReports(tr, CROSSING)
    ensures CrossingInv(tr, After(tr))
  {
    if tr != [] {
      var rest, e := tr[..|tr| - 1], tr[|tr| - 1];
      assert tr == rest + [e];
      CrossingInvariant(rest);
      TimersTellHistory(rest);
      CrossingNext(rest, e);
    }
  }

  lemma {:induction false} CrossingNext(tr: seq<Event>, e: Event)
    requires WellTimed(tr + [e]) && (e.Report? ==> e.mode == CROSSING)
    requires TimersLinked(tr, After(tr)) && CrossingInv(tr, After(tr))
    ensures CrossingInv(tr + [e], if e.Frame? then FrameStep(After(tr), e) else ReportStep(After(tr), e))
  {
    if e.Frame? {
      CrossingFrame(tr, e);
    } else {
      CrossingReport(tr, e);
      CrossingReportKeeps(tr, e);
    }
  }

  lemma {:induction false} CrossingTimersStep(s: Timers, e: Event)
    requires e.Frame?
    ensures var s' := FrameStep(s, e);
      && s'.gjHavePerson == Track(Occupied, s.gjHavePerson, e)
      && s'.gjNoPerson == Track(Empty, s.gjNoPerson, e)
      && s'.prevSend == s.prevSend
  {
  }

  lemma {:induction false} CrossingFrame(tr: seq<Event>, e: Event)
    requires WellTimed(tr + [e]) && e.Frame?
    requires TimersLinked(tr, After(tr)) && CrossingInv(tr, After(tr))
    ensures CrossingInv(tr + [e], FrameStep(After(tr), e))
  {
    var s := After(tr);
    CrossingTimersStep(s, e);
    CoveredByFrame(tr, e, Occupied, s.gjHavePerson, s.prevSend == 1);
    CoveredByFrame(tr, e, Empty, s.gjNoPerson, s.prevSend == 0);
    assert (tr + [e])[..|tr|] == tr && (tr + [e])[|tr|] == e;
    assert Hysteresis(tr + [e]) == Hysteresis(tr);
  }

  lemma {:induction false} CrossingReport(tr: seq<Event>, e: Event)
    requires TimersLinked(tr, After(tr)) && CrossingInv(tr, After(tr))
    requires e.Report? && e.mode == CROSSING
    ensures CrossingStatus(After(tr), e) == Hysteresis(tr + [e]) <= 1
  {
    var s, limit := After(tr), e.ms - e.plan.overTime * 1000;
    HysteresisReport(tr, e);
    CoveredIsSince(tr, Occupied, s.gjHavePerson, s.prevSend == 1, limit);
    CoveredIsSince(tr, Empty, s.gjNoPerson, s.prevSend == 0, limit);
    NeverBoth(tr, limit);
  }

  lemma {:induction false} HysteresisReport(tr: seq<Event>, e: Event)
    requires e.Report?
    ensures var limit := e.ms - e.plan.overTime * 1000;
      Hysteresis(tr + [e]) ==
        if HeldSince(tr, Occupied, limit) then 1 else if HeldSince(tr, Empty, limit) then 0 else Hysteresis(tr)
  {
    assert (tr + [e])[..|tr|] == tr;
  }

  lemma {:induction false} CrossingReportKeeps(tr: seq<Event>, e: Event)
    requires TimersLinked(tr, After(tr)) && CrossingInv(tr, After(tr))
    requires e.Report? && e.mode == CROSSING
    ensures Covered(tr + [e], Occupied, ReportStep(After(tr), e).gjHavePerson, ReportStep(After(tr), e).prevSend == 1)
    ensures Covered(tr + [e], Empty, ReportStep(After(tr), e).gjNoPerson, ReportStep(After(tr), e).prevSend == 0)
  {
    var s, s' := After(tr), ReportStep(After(tr), e);
    forall i | HeldFrom(tr, i, Occupied) ensures s.gjNoPerson == 0 {
      OtherTimerStopped(tr, i, s.gjNoPerson, Occupied, Empty);
    }
    forall i | HeldFrom(tr, i, Empty) ensures s.gjHavePerson == 0 {
      OtherTimerStopped(tr, i, s.gjHavePerson, Empty, Occupied);
    }
    CrossingTimersReport(s, e);
    CoveredByReport(tr, e, Occupied, s.gjHavePerson, s.prevSend == 1, s'.gjHavePerson, s'.prevSend == 1);
    CoveredByReport(tr, e, Empty, s.gjNoPerson, s.prevSend == 0, s'.gjNoPerson, s'.prevSend == 0);
  }

  lemma {:induction false} OtherTimerStopped(tr: seq<Event>, i: int, timer: int, c: Condition, d: Condition)
    requires (c == Occupied && d == Empty) || (c == Empty && d == Occupied)
    requires HeldFrom(tr, i, c) && Linked(tr, timer, d)
    ensures timer == 0
  {
    if timer != 0 {
      var j :| HeldFrom(tr, j, d) && tr[j].now == timer;
      if c == Occupied {
        Incompatible(tr, i, j, c, d);
      } else {
        Incompatible(tr, j, i, d, c);
      }
    }
  }

  /** With the opposite timer stopped a report keeps a timer or makes its status. */
  lemma {:induction false} CrossingTimersReport(s: Timers, e: Event)
    requires e.Report? && e.mode == CROSSING
    ensures var s' := ReportStep(s, e);
      && (s.gjNoPerson == 0 ==> (s'.gjHavePerson == s.gjHavePerson || s'.prevSend == 1) && (s.prevSend == 1 ==> s'.prevSend == 1))
      && (s.gjHavePerson == 0 ==> (s'.gjNoPerson == s.gjNoPerson || s'.prevSend == 0) && (s.prevSend == 0 ==> s'.prevSend == 0))
  {
  }

  /** Crossing mode, exactly: in every interleaving the status sent is the hysteresis of
      the samples.  So it goes on only after `overTime` of occupied samples, off only
      after `overTime` of empty ones, and never misses either. */
  lemma {:induction false} CrossingIsHysteresis(tr: seq<Event>, e: Event)
    requires WellTimed(tr) && AllReports(tr, CROSSING)
    requires e.Report? && e.mode == CROSSING
    ensures AreaStatus(After(tr), e) == Hysteresis(tr + [e])
    ensures AreaStatus(After(tr), e) == 1 && Hysteresis(tr) == 0 ==> HeldSince(tr, Occupied, e.ms - e.plan.overTime * 1000)
    ensures AreaStatus(After(tr), e) == 0 && Hysteresis(tr) == 1 ==> HeldSince(tr, Empty, e.ms - e.plan.overTime * 1000)
    ensures HeldSince(tr, Occupied, e.ms - e.plan.overTime * 1000) ==> AreaStatus(After(tr), e) == 1
    ensures HeldSince(tr, Empty, e.ms - e.plan.overTime * 1000) ==> AreaStatus(After(tr), e) == 0
  {
    CrossingInvariant(tr);
    TimersTellHistory(tr);
    CrossingReport(tr, e);
    assert (tr + [e])[..|tr|] == tr;
    NeverBoth(tr, e.ms - e.plan.overTime * 1000);
  }

  lemma {:induction false} NeverBoth(tr: seq<Event>, limit: int)
    ensures !(HeldSince(tr, Occupied, limit) && HeldSince(tr, Empty, limit))
  {
    if i :| HeldFrom(tr, i, Occupied) {
      forall j ensures !HeldFrom(tr, j, Empty) {
        Incompatible(tr, i, j, Occupied, Empty);
      }
    }
  }

  // ---------------------------------------------------------------- waiting mode

  /** The status of the last report sent in a run (0 before the first). */
  function LastSent(tr: seq<Event>): nat {
    if tr == [] then 0
    else
      var rest, e := tr[..|tr| - 1], tr[|tr| - 1];
      if e.Frame? then LastSent(rest) else AreaStatus(After(rest), e)
  }

  /** Was the last report sent raised by the waiting timer? */
  predicate LastWasWait(tr: seq<Event>) {
    tr != [] &&
    var rest, e := tr[..|tr| - 1], tr[|tr| - 1];
    if e.Frame? then LastWasWait(rest) else WaitDue(After(rest), e)
  }

  lemma {:induction false} WaitingInvariant(tr: seq<Event>)
    requires WellTimed(tr) && AllReports(tr, WAITING)
    ensures var s := After(tr);
      && s.prevType <= 2
      && (s.prevType == 2 ==> s.prevSend == 1)
      && (LastSent(tr) == if s.prevType == 0 then 0 else 1)
      && (LastWasWait(tr) <==> s.prevType == 1)
  {
    if tr != [] {
      var rest, e := tr[..|tr| - 1], tr[|tr| - 1];
      WaitingInvariant(rest);
    }
  }

  /** Waiting mode: the status goes on only for a cause, and the cause is in the samples. */
  lemma {:induction false} WaitingRise(tr: seq<Event>, e: Event)
    requires WellTimed(tr) && AllReports(tr, WAITING)
    requires e.Report? && e.mode == WAITING
    requires LastSent(tr) == 0 && AreaStatus(After(tr), e) == 1
    ensures || HeldSince(tr, Quiet, e.ms - e.plan.maxWaitTime * 1000 - 1)
            || HeldSince(tr, OverLimit, e.ms - e.plan.overTime * 1000)
  {
    WaitingInvariant(tr);
    TimersTellHistory(tr);
    var s := After(tr);
    if WaitDue(s, e) {
      LinkedGivesSince(tr, s.startWait, Quiet, e.ms - e.plan.maxWaitTime * 1000 - 1);
    } else {
      LinkedGivesSince(tr, s.startOver, OverLimit, e.ms - e.plan.overTime * 1000);
    }
  }

  /** It goes off only after `overTime` below the limit, or at once after a waiting alarm. */
  lemma {:induction false} WaitingFall(tr: seq<Event>, e: Event)
    requires WellTimed(tr) && AllReports(tr, WAITING)
    requires e.Report? && e.mode == WAITING
    requires LastSent(tr) == 1 && AreaStatus(After(tr), e) == 0
    ensures LastWasWait(tr) || HeldSince(tr, UnderLimit, e.ms - e.plan.overTime * 1000)
  {
    WaitingInvariant(tr);
    TimersTellHistory(tr);
    if !LastWasWait(tr) {
      LinkedGivesSince(tr, After(tr).startUnover, UnderLimit, e.ms - e.plan.overTime * 1000);
    }
  }

  /** No report from index `i` on was raised by the waiting timer. */
  ghost predicate NoWaitAlarm(tr: seq<Event>, i: int) {
    forall k :: 0 <= i <= k < |tr| && tr[k].Report? ==> !WaitDue(After(tr[..k]), tr[k])
  }

  /** Since sample `i`, all over the limit and without a waiting alarm: the over-limit
      timer covers it, or the alarm is latched. */
  ghost predicate OverCovered(tr: seq<Event>, s: Timers) {
    forall i :: HeldFrom(tr, i, OverLimit) && NoWaitAlarm(tr, i) ==> 0 < s.startOver <= tr[i].now || s.prevType == 2
  }

  lemma {:induction false} OverLimitInvariant(tr: seq<Event>)
    requires WellTimed(tr) && AllReports(tr, WAITING)
    ensures OverCovered(tr, After(tr))
  {
    if tr != [] {
      var rest, e := tr[..|tr| - 1], tr[|tr| - 1];
      assert tr == rest + [e];
      OverLimitInvariant(rest);
      TimersTellHistory(rest);
      var s, s' := After(rest), After(tr);
      forall i | HeldFrom(tr, i, OverLimit) && NoWaitAlarm(tr, i)
        ensures 0 < s'.startOver <= tr[i].now || s'.prevType == 2
      {
        if i < |rest| {
          HeldFromShrinks(rest, e, i, OverLimit);
          NoWaitAlarmShrinks(rest, e, i);
          OverLimitStep(rest, e, i);
        } else if s.startOver != 0 {
          var k :| HeldFrom(rest, k, OverLimit) && rest[k].now == s.startOver;
          assert tr[k] == rest[k];
        }
      }
    }
  }

  lemma {:induction false} NoWaitAlarmShrinks(tr: seq<Event>, e: Event, i: int)
    requires NoWaitAlarm(tr + [e], i) && 0 <= i < |tr|
    ensures NoWaitAlarm(tr, i)
    ensures e.Report? ==> !WaitDue(After(tr), e)
  {
    forall k | i <= k < |tr| && tr[k].Report? ensures !WaitDue(After(tr[..k]), tr[k]) {
      assert (tr + [e])[..k] == tr[..k] && (tr + [e])[k] == tr[k];
    }
    assert (tr + [e])[..|tr|] == tr && (tr + [e])[|tr|] == e;
  }

  lemma {:induction false} OverLimitStep(tr: seq<Event>, e: Event, i: int)
    requires TimersLinked(tr, After(tr)) && OverCovered(tr, After(tr))
    requires HeldFrom(tr, i, OverLimit) && NoWaitAlarm(tr, i)
    requires e.Frame? ==> Holds(OverLimit, e)
    requires e.Report? ==> e.mode == WAITING && !WaitDue(After(tr), e)
    ensures var s' := Step(After(tr), e);
      0 < s'.startOver <= tr[i].now || s'.prevType == 2
  {
    var s := After(tr);
    if s.startUnover != 0 {
      var j :| HeldFrom(tr, j, UnderLimit) && tr[j].now == s.startUnover;
      Incompatible(tr, i, j, OverLimit, UnderLimit);
    }
  }

  /** The over-limit alarm never misses: `overTime` of samples at or above the limit, with
      no waiting alarm in between (that one resets the over-limit timer), and it is on. */
  lemma {:induction false} OverLimitAlarm(tr: seq<Event>, e: Event, i: int)
    requires WellTimed(tr) && AllReports(tr, WAITING)
    requires e.Report? && e.mode == WAITING
    requires HeldFrom(tr, i, OverLimit) && NoWaitAlarm(tr, i)
    requires tr[i].now <= e.ms - e.plan.overTime * 1000
    ensures AreaStatus(After(tr), e) == 1
  {
    OverLimitInvariant(tr);
    WaitingInvariant(tr);
    TimersTellHistory(tr);
    var s := After(tr);
    if s.startUnover != 0 {
      var j :| HeldFrom(tr, j, UnderLimit) && tr[j].now == s.startUnover;
      Incompatible(tr, i, j, OverLimit, UnderLimit);
    }
  }

  lemma {:induction false} UnderLimitTimerStep(s: Timers, e: Event)
    ensures Step(s, e).startUnover == if e.Frame? then Track(UnderLimit, s.startUnover, e) else s.startUnover
  {
  }

  lemma {:induction false} UnderLimitInvariant(tr: seq<Event>)
    requires WellTimed(tr)
    ensures Covered(tr, UnderLimit, After(tr).startUnover, false)
  {
    if tr != [] {
      var rest, e := tr[..|tr| - 1], tr[|tr| - 1];
      assert tr == rest + [e];
      UnderLimitInvariant(rest);
      TimersTellHistory(rest);
      var s := After(rest);
      UnderLimitTimerStep(s, e);
      if e.Frame? {
        CoveredByFrame(rest, e, UnderLimit, s.startUnover, false);
      } else {
        CoveredByReport(rest, e, UnderLimit, s.startUnover, false, s.startUnover, false);
      }
    }
  }

  /** `overTime` of samples below the limit always ends an over-limit alarm: only the
      waiting timer can then raise the status. */
  lemma {:induction false} UnderLimitRelease(tr: seq<Event>, e: Event)
    requires WellTimed(tr) && e.Report? && e.mode == WAITING
    requires HeldSince(tr, UnderLimit, e.ms - e.plan.overTime * 1000)
    ensures AreaStatus(After(tr), e) == if WaitDue(After(tr), e) then 1 else 0
  {
    UnderLimitInvariant(tr);
    TimersTellHistory(tr);
    OppositeTimersExclude(tr);
  }

  /** The condition on waiting alarms is needed: here one resets the over-limit timer, and
      the area is reported free after 10 seconds at its limit. */
  lemma {:induction false} WaitAlarmPostponesOverLimit()
    ensures var plan := Plan(0, 0, 5, 0, 0, 10);
      var tr := [Frame(1, 1, 5, 0, 0, plan), Report(5000, WAITING, plan)];
      var e := Report(10001, WAITING, plan);
      && WellTimed(tr) && AllReports(tr, WAITING)
      && HeldFrom(tr, 0, OverLimit) && tr[0].now <= e.ms - e.plan.overTime * 1000
      && AreaStatus(After(tr), e) == 0
  {
    var plan := Plan(0, 0, 5, 0, 0, 10);
    var tr := [Frame(1, 1, 5, 0, 0, plan), Report(5000, WAITING, plan)];
    assert tr[..1] == [tr[0]] && tr[..1][..0] == [];
    var s := FrameStep(IDLE, tr[0]);
    assert After(tr[..1]) == s;
    assert After(tr) == ReportStep(s, tr[1]);
  }

  // ---------------------------------------------------------------- all modes, exactly

  /** Somebody was there in the last sample. */
  predicate LastOccupied(tr: seq<Event>) {
    tr != [] && var e := tr[|tr| - 1]; if e.Frame? then e.people > 0 else LastOccupied(tr[..|tr| - 1])
  }

  /** Waiting may begin with sample `i`: nobody was there before, or nobody has crossed the
      line for the plan's `overTime`. */
  ghost predicate Begins(tr: seq<Event>, i: int)
    requires 0 <= i < |tr| && tr[i].Frame?
  {
    !LastOccupied(tr[..i]) || HeldSince(tr[..i], Quiet, tr[i].ms - tr[i].plan.overTime * 1000)
  }

  /** What a timer that a report can clear is there for. */
  datatype Watch = Gone | Wait | Crowd | Present | Absent

  function Awaited(w: Watch): Condition {
    match w
    case Gone => Empty
    case Wait => Quiet
    case Crowd => OverLimit
    case Present => Occupied
    case Absent => Empty
  }

  /** What a report waits for: the condition has held since sample `i`, no report since then
      took notice of it, and, for a wait, one began there. */
  ghost predicate Since(tr: seq<Event>, i: int, w: Watch)
    decreases |tr|, 1
  {
    HeldFrom(tr, i, Awaited(w)) && (w.Wait? ==> Begins(tr, i)) && Undisturbed(tr, i, w)
  }

  ghost predicate SinceBefore(tr: seq<Event>, w: Watch, limit: int)
    decreases |tr|, 2
  {
    exists i :: Since(tr, i, w) && tr[i].now <= limit
  }

  ghost predicate Undisturbed(tr: seq<Event>, i: int, w: Watch)
    decreases |tr|, 0
  {
    forall k :: 0 <= i <= k < |tr| && tr[k].Report? ==> !Notices(tr[..k], tr[k], w)
  }

  /** Report `e` says that nobody was there for long, shows an alarm anew, or, in crossing mode,
      that people are there or gone. */
  ghost predicate Notices(tr: seq<Event>, e: Event, w: Watch)
    requires e.Report?
    decreases |tr|, 4
  {
    match w
    case Gone => SinceBefore(tr, Gone, e.ms - e.plan.noPersonTime * 1000)
    case Wait => e.mode == WAITING && (Cause(tr, e) == 1 || Cause(tr, e) == 3)
    case Crowd => e.mode == WAITING && (Cause(tr, e) == 1 || Cause(tr, e) == 3)
    case Present => e.mode == CROSSING && SinceBefore(tr, Present, e.ms - e.plan.overTime * 1000)
    case Absent =>
      && e.mode == CROSSING && !SinceBefore(tr, Present, e.ms - e.plan.overTime * 1000)
      && SinceBefore(tr, Absent, e.ms - e.plan.overTime * 1000)
  }

  /** Why report `e` in waiting mode, after the samples and reports `tr`, shows an alarm:
      1 somebody has waited too long, 3 there were too many for too long, 2 there were and it was
      never quiet enough since, 0 it shows none. */
  ghost function Cause(tr: seq<Event>, e: Event): nat
    requires e.Report?
    decreases |tr|, 3
  {
    if SinceBefore(tr, Wait, e.ms - e.plan.maxWaitTime * 1000 - 1) then 1
    else if SinceBefore(tr, Crowd, e.ms - e.plan.overTime * 1000) then 3
    else if LastCause(tr) >= 2 && !HeldSince(tr, UnderLimit, e.ms - e.plan.overTime * 1000) then 2
    else 0
  }

  /** The cause at the last report in waiting mode. */
  ghost function LastCause(tr: seq<Event>): nat
    decreases |tr|, 0
  {
    if tr == [] then 0
    else
      var rest, e := tr[..|tr| - 1], tr[|tr| - 1];
      if e.Report? && e.mode == WAITING then Cause(rest, e) else LastCause(rest)
  }

  /** The status that both modes hand on from report to report. */
  ghost function Carried(tr: seq<Event>): nat
    decreases |tr|, 0
  {
    if tr == [] then 0
    else
      var rest, e := tr[..|tr| - 1], tr[|tr| - 1];
      if e.Frame? then Carried(rest)
      else if e.mode == CROSSING then Shown(rest, e)
      else if e.mode != WAITING then Carried(rest)
      else if Cause(rest, e) == 1 || Cause(rest, e) == 3 then 1
      else if Cause(rest, e) == 0 && LastCause(rest) >= 2 then 0
      else Carried(rest)
  }

  /** The status that report `e` shows: in crossing mode on when people have been there for
      `overTime`, off when nobody has been, and otherwise what was handed on; in waiting mode on
      for a new cause, what was handed on for an old one, and off for none. */
  ghost function Shown(tr: seq<Event>, e: Event): nat
    requires e.Report?
    decreases |tr|, 5
  {
    if e.mode == WAITING then
      var cause := Cause(tr, e);
      if cause == 0 then 0 else if cause == 2 then Carried(tr) else 1
    else if e.mode == CROSSING then
      if Notices(tr, e, Present) then 1 else if Notices(tr, e, Absent) then 0 else Carried(tr)
    else 0
  }

  /** The timer runs from the first such sample, and only then. */
  ghost predicate TimerExact(tr: seq<Event>, timer: int, w: Watch) {
    && (timer != 0 ==> timer > 0 && exists i :: Since(tr, i, w) && tr[i].now == timer)
    && (forall i :: Since(tr, i, w) ==> 0 < timer <= tr[i].now)
  }

  lemma {:induction false} PrevStatusIsLast(tr: seq<Event>)
    ensures After(tr).prevStatus == LastOccupied(tr)
  {
    if tr != [] {
      PrevStatusIsLast(tr[..|tr| - 1]);
    }
  }

  lemma {:induction false} SinceShrinks(tr: seq<Event>, e: Event, i: int, w: Watch)
    requires 0 <= i < |tr| && HeldFrom(tr + [e], i, Awaited(w))
    ensures Since(tr + [e], i, w) <==> Since(tr, i, w) && (e.Report? ==> !Notices(tr, e, w))
  {
    var tr' := tr + [e];
    HeldFromShrinks(tr, e, i, Awaited(w));
    assert tr'[..i] == tr[..i] && tr'[..|tr|] == tr && tr'[|tr|] == e;
    forall k | i <= k < |tr| ensures tr'[..k] == tr[..k] && tr'[k] == tr[k] {
    }
  }

  lemma {:induction false} ExactReport(tr: seq<Event>, e: Event, timer: int, timer': int, w: Watch)
    requires e.Report? && TimerExact(tr, timer, w)
    requires timer' == if Notices(tr, e, w) then 0 else timer
    ensures TimerExact(tr + [e], timer', w)
  {
    var tr' := tr + [e];
    forall i | Since(tr', i, w) ensures 0 < timer' <= tr'[i].now {
      assert tr'[|tr|] == e && i < |tr|;
      SinceShrinks(tr, e, i, w);
    }
    if timer' != 0 {
      var i :| Since(tr, i, w) && tr[i].now == timer;
      HeldFromGrows(tr, e, i, Awaited(w));
      SinceShrinks(tr, e, i, w);
    }
  }

  lemma {:induction false} ExactFrame(tr: seq<Event>, e: Event, timer: int, timer': int, w: Watch)
    requires e.Frame? && WellTimed(tr + [e]) && TimerExact(tr, timer, w)
    requires var starts := w.Wait? ==> Begins(tr + [e], |tr|);
      timer' == if !Holds(Awaited(w), e) then 0 else if timer != 0 then timer else if starts then e.now else 0
    ensures TimerExact(tr + [e], timer', w)
  {
    var tr' := tr + [e];
    assert tr'[|tr|] == e;
    forall i | Since(tr', i, w) ensures 0 < timer' <= tr'[i].now {
      assert Holds(Awaited(w), e);
      if i < |tr| {
        SinceShrinks(tr, e, i, w);
      } else if timer != 0 {
        var j :| Since(tr, j, w) && tr[j].now == timer;
        assert tr'[j] == tr[j];
      }
    }
    if timer' != 0 {
      if timer != 0 {
        var i :| Since(tr, i, w) && tr[i].now == timer;
        HeldFromGrows(tr, e, i, Awaited(w));
        SinceShrinks(tr, e, i, w);
      } else {
        assert Since(tr', |tr|, w);
      }
    }
  }

  /** The line timer covers every stretch without a crossing. */
  lemma {:induction false} LineInvariant(tr: seq<Event>)
    requires WellTimed(tr)
    ensures Covered(tr, Quiet, After(tr).lineNoPerson, false)
  {
    if tr != [] {
      var rest, e := tr[..|tr| - 1], tr[|tr| - 1];
      assert tr == rest + [e];
      LineInvariant(rest);
      TimersTellHistory(rest);
      var s := After(rest);
      LineTimerStep(s, e);
      if e.Frame? {
        CoveredByFrame(rest, e, Quiet, s.lineNoPerson, false);
      } else {
        CoveredByReport(rest, e, Quiet, s.lineNoPerson, false, s.lineNoPerson, false);
      }
    }
  }

  lemma {:induction false} LineTimerStep(s: Timers, e: Event)
    ensures Step(s, e).lineNoPerson == if e.Frame? then Track(Quiet, s.lineNoPerson, e) else s.lineNoPerson
  {
  }

  lemma {:induction false} BeginsIsTracked(tr: seq<Event>, e: Event)
    requires WellTimed(tr) && e.Frame?
    ensures var s := After(tr);
      Begins(tr + [e], |tr|) <==> !s.prevStatus || (s.lineNoPerson != 0 && e.ms - s.lineNoPerson >= e.plan.overTime * 1000)
  {
    PrevStatusIsLast(tr);
    LineInvariant(tr);
    TimersTellHistory(tr);
    assert (tr + [e])[..|tr|] == tr && (tr + [e])[|tr|] == e;
    CoveredIsSince(tr, Quiet, After(tr).lineNoPerson, false, e.ms - e.plan.overTime * 1000);
  }

  /** What the latch says about the last report in waiting mode. */
  ghost predicate LatchExact(s: Timers, cause: nat) {
    && cause <= 3
    && (s.prevType == 1 <==> cause == 1) && (s.prevType == 2 <==> cause >= 2)
  }

  ghost predicate WaitingExact(tr: seq<Event>, s: Timers) {
    && TimerExact(tr, s.startWait, Wait) && TimerExact(tr, s.startOver, Crowd)
    && LatchExact(s, LastCause(tr))
  }

  ghost predicate CrossingExact(tr: seq<Event>, s: Timers) {
    TimerExact(tr, s.gjHavePerson, Present) && TimerExact(tr, s.gjNoPerson, Absent)
  }

  lemma {:induction false} ExactIsDue(tr: seq<Event>, timer: int, w: Watch, limit: int)
    requires TimerExact(tr, timer, w)
    ensures SinceBefore(tr, w, limit) <==> 0 < timer <= limit
  {
  }

  lemma {:induction false} ReleaseIsDue(tr: seq<Event>, e: Event)
    requires WellTimed(tr) && e.Report?
    ensures HeldSince(tr, UnderLimit, e.ms - e.plan.overTime * 1000) <==> ReleaseDue(After(tr), e)
  {
    UnderLimitInvariant(tr);
    TimersTellHistory(tr);
    CoveredIsSince(tr, UnderLimit, After(tr).startUnover, false, e.ms - e.plan.overTime * 1000);
  }

  /** The three tests of a report in waiting mode are the three parts of its cause. */
  lemma {:induction false} TestsAreCause(tr: seq<Event>, e: Event)
    requires WellTimed(tr) && e.Report? && WaitingExact(tr, After(tr))
    ensures var s := After(tr);
      && (WaitDue(s, e) <==> Cause(tr, e) == 1) && (OverDue(s, e) <==> Cause(tr, e) == 3)
      && (Cause(tr, e) == 2 <==> Latched(s, e) && !ReleaseDue(s, e))
  {
    var s := After(tr);
    ReleaseIsDue(tr, e);
    ExactIsDue(tr, s.startWait, Wait, e.ms - e.plan.maxWaitTime * 1000 - 1);
    ExactIsDue(tr, s.startOver, Crowd, e.ms - e.plan.overTime * 1000);
  }

  /** The two tests of a report in crossing mode. */
  lemma {:induction false} TestsAreNotices(tr: seq<Event>, e: Event)
    requires e.Report? && e.mode == CROSSING && CrossingExact(tr, After(tr))
    ensures var s := After(tr);
      && (Reached(s.gjHavePerson, e.ms, e.plan.overTime) <==> Notices(tr, e, Present))
      && (!Reached(s.gjHavePerson, e.ms, e.plan.overTime) && Reached(s.gjNoPerson, e.ms, e.plan.overTime) <==> Notices(tr, e, Absent))
  {
    ExactIsDue(tr, After(tr).gjHavePerson, Present, e.ms - e.plan.overTime * 1000);
    ExactIsDue(tr, After(tr).gjNoPerson, Absent, e.ms - e.plan.overTime * 1000);
  }

  lemma {:induction false} WaitingTimersKept(s: Timers, e: Event)
    requires e.Report? && e.mode != WAITING
    ensures var s' := ReportStep(s, e);
      s'.startWait == s.startWait && s'.startOver == s.startOver && s'.prevType == s.prevType
  {
  }

  lemma {:induction false} CrossingTimersKept(s: Timers, e: Event)
    requires e.Report? && e.mode != CROSSING
    ensures Step(s, e).gjHavePerson == s.gjHavePerson && Step(s, e).gjNoPerson == s.gjNoPerson
  {
  }

  lemma {:induction false} WaitingExactFrame(tr: seq<Event>, e: Event)
    requires WellTimed(tr + [e]) && WellTimed(tr) && e.Frame?
    requires WaitingExact(tr, After(tr))
    ensures WaitingExact(tr + [e], FrameStep(After(tr), e))
  {
    var s, s' := After(tr), FrameStep(After(tr), e);
    assert (tr + [e])[..|tr|] == tr && (tr + [e])[|tr|] == e;
    BeginsIsTracked(tr, e);
    ExactFrame(tr, e, s.startWait, s'.startWait, Wait);
    ExactFrame(tr, e, s.startOver, s'.startOver, Crowd);
  }

  /** A report clears both timers when it shows an alarm anew, and sets the latch. */
  lemma {:induction false} WaitingTimersReport(tr: seq<Event>, e: Event)
    requires WellTimed(tr) && e.Report? && WaitingExact(tr, After(tr))
    ensures var s, s' := After(tr), ReportStep(After(tr), e);
      && s'.startWait == (if Notices(tr, e, Wait) then 0 else s.startWait)
      && s'.startOver == (if Notices(tr, e, Crowd) then 0 else s.startOver)
      && LatchExact(s', if e.mode == WAITING then Cause(tr, e) else LastCause(tr))
  {
    if e.mode == WAITING {
      TestsAreCause(tr, e);
    } else {
      WaitingTimersKept(After(tr), e);
    }
  }

  lemma {:induction false} WaitingExactReport(tr: seq<Event>, e: Event)
    requires WellTimed(tr) && e.Report?
    requires WaitingExact(tr, After(tr))
    ensures WaitingExact(tr + [e], ReportStep(After(tr), e))
  {
    var s, s' := After(tr), ReportStep(After(tr), e);
    WaitingTimersReport(tr, e);
    ExactReport(tr, e, s.startWait, s'.startWait, Wait);
    ExactReport(tr, e, s.startOver, s'.startOver, Crowd);
    assert (tr + [e])[..|tr|] == tr;
  }

  lemma {:induction false} CrossingExactStep(tr: seq<Event>, e: Event)
    requires WellTimed(tr + [e]) && CrossingExact(tr, After(tr))
    ensures CrossingExact(tr + [e], Step(After(tr), e))
  {
    var s, s' := After(tr), Step(After(tr), e);
    if e.Frame? {
      CrossingTimersStep(s, e);
      ExactFrame(tr, e, s.gjHavePerson, s'.gjHavePerson, Present);
      ExactFrame(tr, e, s.gjNoPerson, s'.gjNoPerson, Absent);
    } else {
      if e.mode == CROSSING {
        TestsAreNotices(tr, e);
      } else {
        CrossingTimersKept(s, e);
      }
      ExactReport(tr, e, s.gjHavePerson, s'.gjHavePerson, Present);
      ExactReport(tr, e, s.gjNoPerson, s'.gjNoPerson, Absent);
    }
  }

  lemma {:induction false} WaitingExactInvariant(tr: seq<Event>)
    requires WellTimed(tr)
    ensures WaitingExact(tr, After(tr))
  {
    if tr == [] {
      assert forall i, w :: !Since(tr, i, w);
    } else {
      var rest, e := tr[..|tr| - 1], tr[|tr| - 1];
      assert tr == rest + [e];
      WaitingExactInvariant(rest);
      if e.Frame? {
        WaitingExactFrame(rest, e);
      } else {
        WaitingExactReport(rest, e);
      }
    }
  }

  lemma {:induction false} CrossingExactInvariant(tr: seq<Event>)
    requires WellTimed(tr)
    ensures CrossingExact(tr, After(tr))
  {
    if tr == [] {
      assert forall i, w :: !Since(tr, i, w);
    } else {
      var rest, e := tr[..|tr| - 1], tr[|tr| - 1];
      assert tr == rest + [e];
      CrossingExactInvariant(rest);
      CrossingExactStep(rest, e);
    }
  }

  /** A report shows, and hands on, what it should. */
  lemma {:induction false} WaitingReportIsExact(tr: seq<Event>, e: Event)
    requires WellTimed(tr) && e.Report? && e.mode == WAITING && WaitingExact(tr, After(tr))
    requires After(tr).prevSend == Carried(tr)
    ensures AreaStatus(After(tr), e) == Shown(tr, e) && ReportStep(After(tr), e).prevSend == Carried(tr + [e])
  {
    assert (tr + [e])[..|tr|] == tr;
    TestsAreCause(tr, e);
  }

  lemma {:induction false} CrossingReportIsExact(tr: seq<Event>, e: Event)
    requires e.Report? && e.mode == CROSSING && CrossingExact(tr, After(tr))
    requires After(tr).prevSend == Carried(tr)
    ensures AreaStatus(After(tr), e) == Shown(tr, e) && ReportStep(After(tr), e).prevSend == Carried(tr + [e])
  {
    assert (tr + [e])[..|tr|] == tr;
    TestsAreNotices(tr, e);
  }

  lemma {:induction false} OtherReportIsExact(tr: seq<Event>, e: Event)
    requires e.Report? && e.mode != WAITING && e.mode != CROSSING && After(tr).prevSend == Carried(tr)
    ensures AreaStatus(After(tr), e) == Shown(tr, e) && ReportStep(After(tr), e).prevSend == Carried(tr + [e])
  {
    assert (tr + [e])[..|tr|] == tr;
  }

  lemma {:induction false} ReportIsExact(tr: seq<Event>, e: Event)
    requires WellTimed(tr) && e.Report? && After(tr).prevSend == Carried(tr)
    ensures AreaStatus(After(tr), e) == Shown(tr, e) && ReportStep(After(tr), e).prevSend == Carried(tr + [e])
  {
    if e.mode == WAITING {
      WaitingExactInvariant(tr);
      WaitingReportIsExact(tr, e);
    } else if e.mode == CROSSING {
      CrossingExactInvariant(tr);
      CrossingReportIsExact(tr, e);
    } else {
      OtherReportIsExact(tr, e);
    }
  }

  lemma {:induction false} CarriedInvariant(tr: seq<Event>)
    requires WellTimed(tr)
    ensures After(tr).prevSend == Carried(tr)
  {
    if tr != [] {
      var rest, e := tr[..|tr| - 1], tr[|tr| - 1];
      CarriedInvariant(rest);
      assert tr == rest + [e];
      if e.Report? {
        ReportIsExact(rest, e);
      }
    }
  }

  /** In every run, whatever the modes and however they change, the status sent is what the
      samples and the earlier reports give cause for. */
  lemma {:induction false} StatusIsExact(tr: seq<Event>, e: Event)
    requires WellTimed(tr) && e.Report?
    ensures AreaStatus(After(tr), e) == Shown(tr, e)
  {
    CarriedInvariant(tr);
    ReportIsExact(tr, e);
  }

  /** So a status can outlive its mode: a waiting alarm that has already gone off is shown again
      by the first report in crossing mode, though nobody is there. */
  lemma {:induction false} AlarmComesBack()
    ensures var plan := Plan(0, 0, 5, 0, 0, 10);
      var tr := [Frame(1, 1, 1, 0, 0, plan), Report(5000, WAITING, plan), Frame(6000, 6000, 0, 0, 0, plan), Report(7000, WAITING, plan)];
      && WellTimed(tr) && !HeldSince(tr, Occupied, 8000)
      && LastSent(tr) == 0 && AreaStatus(After(tr), Report(8000, CROSSING, plan)) == 1
  {
    var plan := Plan(0, 0, 5, 0, 0, 10);
    var tr := [Frame(1, 1, 1, 0, 0, plan), Report(5000, WAITING, plan), Frame(6000, 6000, 0, 0, 0, plan), Report(7000, WAITING, plan)];
    assert tr[..3][..2] == tr[..2] && tr[..2][..1] == tr[..1] && tr[..1][..0] == [];
    var s := FrameStep(IDLE, tr[0]);
    assert After(tr[..1]) == s;
    assert After(tr[..2]) == ReportStep(s, tr[1]);
    assert After(tr[..3]) == FrameStep(ReportStep(s, tr[1]), tr[2]);
  }

  /** Waiting mode alone: in every interleaving the status sent is on just when the samples
      and the earlier reports give a cause for it. */
  lemma {:induction false} WaitingIsExact(tr: seq<Event>, e: Event)
    requires WellTimed(tr) && AllReports(tr, WAITING)
    requires e.Report? && e.mode == WAITING
    ensures AreaStatus(After(tr), e) == if Cause(tr, e) == 0 then 0 else 1
  {
    WaitingExactInvariant(tr);
    WaitingInvariant(tr);
    TestsAreCause(tr, e);
  }

  lemma {:induction false} EmptyTimerStep(s: Timers, e: Event)
    ensures Step(s, e).noPerson ==
      if e.Frame? then Track(Empty, s.noPerson, e) else if Reached(s.noPerson, e.ms, e.plan.noPersonTime) then 0 else s.noPerson
  {
  }

  lemma {:induction false} EmptyExactInvariant(tr: seq<Event>)
    requires WellTimed(tr)
    ensures TimerExact(tr, After(tr).noPerson, Gone)
  {
    if tr == [] {
      assert forall i :: !Since(tr, i, Gone);
    } else {
      var rest, e := tr[..|tr| - 1], tr[|tr| - 1];
      assert tr == rest + [e];
      EmptyExactInvariant(rest);
      var s, s' := After(rest), After(tr);
      EmptyTimerStep(s, e);
      if e.Frame? {
        ExactFrame(rest, e, s.noPerson, s'.noPerson, Gone);
      } else {
        ExactIsDue(rest, s.noPerson, Gone, e.ms - e.plan.noPersonTime * 1000);
        ExactReport(rest, e, s.noPerson, s'.noPerson, Gone);
      }
    }
  }

  /** How many people the last sample showed. */
  function LastPeople(tr: seq<Event>): nat {
    if tr == [] then 0
    else if tr[|tr| - 1].Frame? then tr[|tr| - 1].people
    else LastPeople(tr[..|tr| - 1])
  }

  /** The last sample, if there was one. */
  predicate EndsInSample(tr: seq<Event>, i: int) {
    0 <= i < |tr| && tr[i].Frame? && forall j :: i < j < |tr| ==> tr[j].Report?
  }

  lemma {:induction false} ReportsKeepCounts(s: Timers, e: Event)
    requires e.Report?
    ensures var s' := ReportStep(s, e); s'.people == s.people && s'.up == s.up && s'.down == s.down
  {
  }

  /** The counts kept are those of the last sample, in a byte each; reports leave them. */
  lemma {:induction false} CountsTellLastSample(tr: seq<Event>)
    ensures After(tr).people == LastPeople(tr) % 256
    ensures forall i :: EndsInSample(tr, i) ==>
      After(tr).people == tr[i].people % 256 && After(tr).up == tr[i].up % 256 && After(tr).down == tr[i].down % 256
  {
    if tr != [] {
      var rest, e := tr[..|tr| - 1], tr[|tr| - 1];
      CountsTellLastSample(rest);
      if e.Report? {
        ReportsKeepCounts(After(rest), e);
        forall i | EndsInSample(tr, i) ensures EndsInSample(rest, i) && rest[i] == tr[i] {
        }
      }
    }
  }

  /** After a sample each timer runs just when the sample shows what it is there for. */
  lemma {:induction false} TimersRunExactly(tr: seq<Event>, e: Event)
    requires WellTimed(tr + [e]) && e.Frame?
    ensures var s := After(tr + [e]);
      && (s.gjHavePerson != 0 <==> e.people > 0)
      && (s.noPerson != 0 <==> e.people == 0) && (s.gjNoPerson != 0 <==> e.people == 0)
      && (s.lineNoPerson != 0 <==> e.people > 0 && e.up == 0 && e.down == 0)
      && (s.startWait != 0 ==> e.people > 0 && e.up == 0 && e.down == 0)
      && (s.startOver != 0 <==> e.people > 0 && e.people >= e.plan.personLimit)
      && (s.startUnover != 0 <==> e.people == 0 || e.people < e.plan.personLimit)
  {
    assert (tr + [e])[..|tr|] == tr && (tr + [e])[|tr|] == e;
  }

  /** The person status, exactly, in any mode: 2 just when every sample for `noPersonTime` was
      empty and no report since has said so; otherwise whether the last sample showed anybody,
      by the byte its count is kept in. */
  lemma {:induction false} PersonStatusIsExact(tr: seq<Event>, e: Event)
    requires WellTimed(tr) && e.Report?
    ensures PersonStatus(After(tr), e) ==
      if SinceBefore(tr, Gone, e.ms - e.plan.noPersonTime * 1000) then 2
      else if LastPeople(tr) % 256 > 0 then 1 else 0
  {
    EmptyExactInvariant(tr);
    ExactIsDue(tr, After(tr).noPerson, Gone, e.ms - e.plan.noPersonTime * 1000);
    CountsTellLastSample(tr);
  }

  /** So 256 people are nobody. */
  lemma {:induction false} CrowdIsNobody(plan: Plan)
    ensures var tr := [Frame(1, 1, 256, 0, 0, plan)];
      WellTimed(tr) && forall e: Event :: e.Report? ==> PersonStatus(After(tr), e) == 0
  {
    var tr := [Frame(1, 1, 256, 0, 0, plan)];
    forall e: Event | e.Report? ensures PersonStatus(After(tr), e) == 0 {
      PersonStatusIsExact(tr, e);
    }
  }
}
