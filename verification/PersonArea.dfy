/** Pedestrian-area timers and the alarm status reported from them
    (zen_rtsp/sig_service.c).  The detector calls a frame step for every processed
    picture; a once-a-second report step reads the timers, latches the alarm and
    resets some timers.  The two run in different threads, each under the area lock,
    so a run is any interleaving of the two steps.

    Both steps read the clock before they take the lock (`ms`) and the frame step
    reads it again inside (`now`).  Only the readings taken inside the lock are known
    to be in order: nothing below restricts `ms`. */
module PersonArea {

  // ---------------------------------------------------------------- plans

  /** One time-of-day plan.  Times are in seconds. */
  datatype Plan = Plan(
    startHour: nat, startMinute: nat, personLimit: nat,
    maxWaitTime: nat, noPersonTime: nat, overTime: nat)

  /** What `memset` leaves when no plan has started yet today. */
  const NO_PLAN := Plan(0, 0, 0, 0, 0, 0)

  predicate Started(p: Plan, hour: nat, minute: nat) {
    hour > p.startHour || (hour == p.startHour && minute > p.startMinute)
  }

  predicate NoEarlierThan(p: Plan, q: Plan) {
    p.startHour > q.startHour || (p.startHour == q.startHour && p.startMinute >= q.startMinute)
  }

  /** The started plan with the latest start; among equals, the one listed last. */
  ghost predicate InForce(plans: seq<Plan>, hour: nat, minute: nat, r: Plan) {
    if forall p :: p in plans ==> !Started(p, hour, minute) then r == NO_PLAN
    else exists k :: IsLatest(plans, hour, minute, k) && r == plans[k]
  }

  ghost predicate IsLatest(plans: seq<Plan>, hour: nat, minute: nat, k: int) {
    && 0 <= k < |plans|
    && Started(plans[k], hour, minute)
    && (forall j :: 0 <= j < k && Started(plans[j], hour, minute) ==> NoEarlierThan(plans[k], plans[j]))
    && (forall j :: k < j < |plans| && Started(plans[j], hour, minute) ==> !NoEarlierThan(plans[j], plans[k]))
  }

  method SelectPlan(plans: seq<Plan>, hour: nat, minute: nat) returns (plan: Plan)
    ensures InForce(plans, hour, minute, plan)
  {
    plan := NO_PLAN;
    var prevHour, prevMinute := 0, 0;
    ghost var best := -1;
    var z := 0;
    while z < |plans|
      invariant 0 <= z <= |plans|
      invariant best == -1 ==> plan == NO_PLAN && prevHour == 0 && prevMinute == 0
      invariant best == -1 ==> forall j :: 0 <= j < z ==> !Started(plans[j], hour, minute)
      invariant best != -1 ==> IsLatest(plans[..z], hour, minute, best) && plan == plans[best]
      invariant best != -1 ==> prevHour == plan.startHour && prevMinute == plan.startMinute
    {
      if hour > plans[z].startHour || (hour == plans[z].startHour && minute > plans[z].startMinute) {
        if plans[z].startHour > prevHour || (plans[z].startHour == prevHour && plans[z].startMinute >= prevMinute) {
          plan := plans[z];
          prevHour := plans[z].startHour;
          prevMinute := plans[z].startMinute;
          best := z;
        }
      }
      z := z + 1;
    }
    assert plans[..z] == plans;
  }

  /** The description determines the plan, so the frame step and the report step, which
      each run their own copy of the loop, always agree. */
  lemma {:induction false} PlanInForceIsUnique(plans: seq<Plan>, hour: nat, minute: nat, p: Plan, q: Plan)
    requires InForce(plans, hour, minute, p) && InForce(plans, hour, minute, q)
    ensures p == q
  {
    if exists r :: r in plans && Started(r, hour, minute) {
      var i :| IsLatest(plans, hour, minute, i) && p == plans[i];
      var j :| IsLatest(plans, hour, minute, j) && q == plans[j];
      assert i == j;
    }
  }

  /** Minutes of the day. */
  function MinuteOf(hour: nat, minute: nat): nat {
    60 * hour + minute
  }

  /** In minutes of the day: a plan is started from the minute after its start on, and the one in
      force is among those the one with the latest start, the last listed of several. */
  lemma {:induction false} InForceByTheClock(plans: seq<Plan>, hour: nat, minute: nat, r: Plan)
    requires minute < 60 && forall p :: p in plans ==> p.startMinute < 60
    requires InForce(plans, hour, minute, r)
    ensures var now := MinuteOf(hour, minute);
      if forall k :: 0 <= k < |plans| ==> now <= StartOf(plans[k]) then r == Plan(0, 0, 0, 0, 0, 0)
      else exists k :: 0 <= k < |plans| && LatestBefore(plans, now, k) && r == plans[k]
  {
    var now := MinuteOf(hour, minute);
    assert forall p :: p in plans ==> (Started(p, hour, minute) <==> StartOf(p) < now);
    if k :| 0 <= k < |plans| && StartOf(plans[k]) < now {
      assert plans[k] in plans;
      var l :| IsLatest(plans, hour, minute, l) && r == plans[l];
      forall j | 0 <= j < |plans| && StartOf(plans[j]) < now && j != l
        ensures if j < l then StartOf(plans[j]) <= StartOf(plans[l]) else StartOf(plans[j]) < StartOf(plans[l])
      {
        assert plans[j] in plans && plans[l] in plans;
      }
      assert LatestBefore(plans, now, l);
    }
  }

  function StartOf(p: Plan): nat {
    MinuteOf(p.startHour, p.startMinute)
  }

  ghost predicate LatestBefore(plans: seq<Plan>, now: nat, k: int)
    requires 0 <= k < |plans|
  {
    && StartOf(plans[k]) < now
    && (forall j :: 0 <= j < k && StartOf(plans[j]) < now ==> StartOf(plans[j]) <= StartOf(plans[k]))
    && (forall j :: k < j < |plans| && StartOf(plans[j]) < now ==> StartOf(plans[j]) < StartOf(plans[k]))
  }

  // ---------------------------------------------------------------- timers

  const WAITING := 1
  const CROSSING := 2

  /** The per-area part of `mRealTimePerson`.  A timer is 0 when it is not running. */
  datatype Timers = Timers(
    people: nat, up: nat, down: nat,
    noPerson: int, gjNoPerson: int, gjHavePerson: int, lineNoPerson: int,
    prevStatus: bool,
    startOver: int, startUnover: int, startWait: int,
    prevSend: nat, prevType: nat)

  const IDLE := Timers(0, 0, 0, 0, 0, 0, 0, false, 0, 0, 0, 0, 0)

  datatype Event =
    | Frame(ms: int, now: int, people: nat, up: nat, down: nat, plan: Plan)
    | Report(ms: int, mode: nat, plan: Plan)

  /** What a sample may satisfy. */
  datatype Condition = Occupied | Empty | Quiet | OverLimit | UnderLimit

  predicate Holds(c: Condition, e: Event)
    requires e.Frame?
  {
    match c
    case Occupied => e.people > 0
    case Empty => e.people == 0
    case Quiet => e.people > 0 && e.up == 0 && e.down == 0
    case OverLimit => e.people > 0 && e.people >= e.plan.personLimit
    case UnderLimit => e.people == 0 || e.people < e.plan.personLimit
  }

  function Running(timer: int, now: int): int {
    if timer == 0 then now else timer
  }

  /** A timer runs while its condition holds and is cleared by the first sample that
      breaks it. */
  function Track(c: Condition, timer: int, e: Event): int
    requires e.Frame?
  {
    if Holds(c, e) then Running(timer, e.now) else 0
  }

  predicate Reached(timer: int, ms: int, seconds: nat) {
    timer > 0 && ms - timer >= seconds * 1000
  }

  /** The waiting timer starts with the first person, or again once nobody has crossed
      the line for the plan's `overTime`. */
  function TrackWait(s: Timers, e: Event): int
    requires e.Frame?
  {
    if !Holds(Quiet, e) then 0
    else if s.startWait != 0 then s.startWait
    else if !s.prevStatus then e.now
    else if s.lineNoPerson != 0 && e.ms - s.lineNoPerson >= e.plan.overTime * 1000 then e.now
    else 0
  }

  function FrameStep(s: Timers, e: Event): Timers
    requires e.Frame?
  {
    Timers(
      e.people % 256, e.up % 256, e.down % 256,
      Track(Empty, s.noPerson, e), Track(Empty, s.gjNoPerson, e), Track(Occupied, s.gjHavePerson, e),
      Track(Quiet, s.lineNoPerson, e),
      e.people > 0,
      Track(OverLimit, s.startOver, e), Track(UnderLimit, s.startUnover, e), TrackWait(s, e),
      s.prevSend, s.prevType)
  }

  predicate WaitDue(s: Timers, e: Event)
    requires e.Report?
  {
    s.startWait > 0 && e.ms - s.startWait > e.plan.maxWaitTime * 1000
  }

  /** The waiting alarm is looked at first and clears the over-limit timer. */
  predicate OverDue(s: Timers, e: Event)
    requires e.Report?
  {
    !WaitDue(s, e) && Reached(s.startOver, e.ms, e.plan.overTime)
  }

  /** An over-limit alarm stays latched until the area was under its limit long enough. */
  predicate Latched(s: Timers, e: Event)
    requires e.Report?
  {
    s.prevType == 2 && !WaitDue(s, e) && !OverDue(s, e)
  }

  predicate ReleaseDue(s: Timers, e: Event)
    requires e.Report?
  {
    Reached(s.startUnover, e.ms, e.plan.overTime)
  }

  function WaitingStatus(s: Timers, e: Event): nat
    requires e.Report?
  {
    if WaitDue(s, e) || OverDue(s, e) then 1
    else if Latched(s, e) && !ReleaseDue(s, e) then s.prevSend
    else 0
  }

  function CrossingStatus(s: Timers, e: Event): nat
    requires e.Report?
  {
    if Reached(s.gjHavePerson, e.ms, e.plan.overTime) then 1
    else if Reached(s.gjNoPerson, e.ms, e.plan.overTime) then 0
    else s.prevSend
  }

  /** `area_status` as sent. */
  function AreaStatus(s: Timers, e: Event): nat
    requires e.Report?
  {
    if e.mode == WAITING then WaitingStatus(s, e)
    else if e.mode == CROSSING then CrossingStatus(s, e)
    else 0
  }

  /** `person_status` as sent: 2 nobody for a long time, 1 somebody, 0 nobody. */
  function PersonStatus(s: Timers, e: Event): nat
    requires e.Report?
  {
    if Reached(s.noPerson, e.ms, e.plan.noPersonTime) then 2
    else if s.people > 0 then 1 else 0
  }

  function WaitingStep(s: Timers, e: Event): Timers
    requires e.Report?
  {
    var fired := WaitDue(s, e) || OverDue(s, e);
    s.(startOver := if fired then 0 else s.startOver,
       startWait := if fired then 0 else s.startWait,
       prevSend := if fired then 1 else if Latched(s, e) && ReleaseDue(s, e) then 0 else s.prevSend,
       prevType := if WaitDue(s, e) then 1 else if OverDue(s, e) then 2
                   else if Latched(s, e) && !ReleaseDue(s, e) then 2
                   else if s.prevType == 1 || s.prevType == 2 then 0 else s.prevType)
  }

  function CrossingStep(s: Timers, e: Event): Timers
    requires e.Report?
  {
    var have := Reached(s.gjHavePerson, e.ms, e.plan.overTime);
    s.(prevSend := CrossingStatus(s, e),
       gjHavePerson := if have then 0 else s.gjHavePerson,
       gjNoPerson := if !have && Reached(s.gjNoPerson, e.ms, e.plan.overTime) then 0 else s.gjNoPerson)
  }

  function ReportStep(s: Timers, e: Event): Timers
    requires e.Report?
  {
    var s := if PersonStatus(s, e) == 2 then s.(noPerson := 0) else s;
    if e.mode == WAITING then WaitingStep(s, e)
    else if e.mode == CROSSING then CrossingStep(s, e)
    else s
  }

  /** The record of one area, with the branches of the two handlers. */
  class Area {
    var people: nat
    var up: nat
    var down: nat
    var noPerson: int
    var gjNoPerson: int
    var gjHavePerson: int
    var lineNoPerson: int
    var prevStatus: bool
    var startOver: int
    var startUnover: int
    var startWait: int
    var prevSend: nat
    var prevType: nat

    ghost function View(): Timers
      reads this
    {
      Timers(people, up, down, noPerson, gjNoPerson, gjHavePerson, lineNoPerson, prevStatus,
             startOver, startUnover, startWait, prevSend, prevType)
    }

    constructor ()
      ensures View() == IDLE
    {
      people, up, down := 0, 0, 0;
      noPerson, gjNoPerson, gjHavePerson, lineNoPerson := 0, 0, 0, 0;
      prevStatus := false;
      startOver, startUnover, startWait := 0, 0, 0;
      prevSend, prevType := 0, 0;
    }

    /** Restart or clear the two timers that a line crossing clears. */
    method WatchLine(ms: int, now: int, num: nat, upNum: nat, downNum: nat, plan: Plan)
      requires num > 0
      modifies this`startWait, this`lineNoPerson
      ensures var e := Frame(ms, now, num, upNum, downNum, plan);
        startWait == TrackWait(old(View()), e) && lineNoPerson == Track(Quiet, old(lineNoPerson), e)
    {
      if !prevStatus {
        if startWait == 0 {
          startWait := now;
        }
      }
      if upNum > 0 || downNum > 0 {
        lineNoPerson := 0;
        startWait := 0;
      } else {
        if lineNoPerson == 0 {
          lineNoPerson := now;
        } else if ms - lineNoPerson >= plan.overTime * 1000 {
          if startWait == 0 {
            startWait := now;
          }
        }
      }
    }

    /** Keep the pair of timers on the plan's limit. */
    method WatchLimit(ms: int, now: int, num: nat, upNum: nat, downNum: nat, plan: Plan)
      requires num > 0
      modifies this`startOver, this`startUnover
      ensures var e := Frame(ms, now, num, upNum, downNum, plan);
        startOver == Track(OverLimit, old(startOver), e) && startUnover == Track(UnderLimit, old(startUnover), e)
    {
      if num >= plan.personLimit {
        if startOver == 0 {
          startOver := now;
        }
        startUnover := 0;
      } else {
        startOver := 0;
        if startUnover == 0 {
          startUnover := now;
        }
      }
    }

    /** Somebody is there: the empty timers stop. */
    method StartPresence(now: int)
      modifies this`gjHavePerson, this`noPerson, this`gjNoPerson
      ensures gjHavePerson == Running(old(gjHavePerson), now) && noPerson == 0 && gjNoPerson == 0
    {
      if gjHavePerson == 0 {
        gjHavePerson := now;
      }
      noPerson := 0;
      gjNoPerson := 0;
    }

    /** Nobody is there: the empty and under-limit timers start, the over-limit one stops. */
    method StopPresence(now: int)
      modifies this`startOver, this`startUnover, this`noPerson, this`gjNoPerson
      ensures startOver == 0 && startUnover == Running(old(startUnover), now)
      ensures noPerson == Running(old(noPerson), now) && gjNoPerson == Running(old(gjNoPerson), now)
    {
      startOver := 0;
      if startUnover == 0 {
        startUnover := now;
      }
      if noPerson == 0 {
        noPerson := now;
      }
      if gjNoPerson == 0 {
        gjNoPerson := now;
      }
    }

    /** The branch for an occupied area. */
    method HandlePresent(ms: int, now: int, num: nat, upNum: nat, downNum: nat, plan: Plan)
      requires num > 0
      modifies this`noPerson, this`gjNoPerson, this`gjHavePerson, this`lineNoPerson, this`prevStatus
      modifies this`startOver, this`startUnover, this`startWait
      ensures View() == FrameStep(old(View()), Frame(ms, now, num, upNum, downNum, plan)).(people := people, up := up, down := down)
    {
      WatchLine(ms, now, num, upNum, downNum, plan);
      WatchLimit(ms, now, num, upNum, downNum, plan);
      StartPresence(now);
      prevStatus := true;
    }

    /** The branch for an empty area. */
    method HandleAbsent(ms: int, now: int, upNum: nat, downNum: nat, plan: Plan)
      modifies this`noPerson, this`gjNoPerson, this`gjHavePerson, this`lineNoPerson, this`prevStatus
      modifies this`startOver, this`startUnover, this`startWait
      ensures View() == FrameStep(old(View()), Frame(ms, now, 0, upNum, downNum, plan)).(people := people, up := up, down := down)
    {
      prevStatus := false;
      StopPresence(now);
      gjHavePerson := 0;
      lineNoPerson := 0;
      startWait := 0;
    }

    method HandleFrame(ms: int, now: int, num: nat, upNum: nat, downNum: nat, plan: Plan)
      modifies this
      ensures View() == FrameStep(old(View()), Frame(ms, now, num, upNum, downNum, plan))
    {
      people, up, down := num % 256, upNum % 256, downNum % 256;
      if num > 0 {
        HandlePresent(ms, now, num, upNum, downNum, plan);
      } else {
        HandleAbsent(ms, now, upNum, downNum, plan);
      }
    }

    /** The branch for `pensondetecttype` 1. */
    method ReportWaiting(ms: int, plan: Plan) returns (areaStatus: nat)
      modifies this`startOver, this`startWait, this`prevSend, this`prevType
      ensures var e := Report(ms, WAITING, plan);
        View() == WaitingStep(old(View()), e) && areaStatus == WaitingStatus(old(View()), e)
    {
      areaStatus := 0;
      if startWait > 0 && ms - startWait > plan.maxWaitTime * 1000 {
        areaStatus := 1;
        prevSend := 1;
        startOver := 0;
        startWait := 0;
        prevType := 1;
      } else if prevType == 1 {
        areaStatus := 0;
        prevType := 0;
      }
      if startOver > 0 && ms - startOver >= plan.overTime * 1000 {
        areaStatus := 1;
        prevType := 2;
        prevSend := 1;
        startOver := 0;
        startWait := 0;
      } else if prevType == 2 {
        if startUnover > 0 && ms - startUnover >= plan.overTime * 1000 {
          areaStatus := 0;
          prevSend := 0;
          prevType := 0;
        } else {
          areaStatus := prevSend;
        }
      }
    }

    /** The branch for `pensondetecttype` 2. */
    method ReportCrossing(ms: int, plan: Plan) returns (areaStatus: nat)
      modifies this`gjHavePerson, this`gjNoPerson, this`prevSend
      ensures var e := Report(ms, CROSSING, plan);
        View() == CrossingStep(old(View()), e) && areaStatus == CrossingStatus(old(View()), e)
    {
      if gjHavePerson > 0 && ms - gjHavePerson >= plan.overTime * 1000 {
        areaStatus := 1;
        prevSend := 1;
        gjHavePerson := 0;
      } else {
        if gjNoPerson > 0 && ms - gjNoPerson >= plan.overTime * 1000 {
          areaStatus := 0;
          prevSend := 0;
          gjNoPerson := 0;
        } else {
          areaStatus := prevSend;
        }
      }
    }

    method MakeReport(ms: int, mode: nat, plan: Plan) returns (areaStatus: nat, personStatus: nat)
      modifies this
      ensures View() == ReportStep(old(View()), Report(ms, mode, plan))
      ensures areaStatus == AreaStatus(old(View()), Report(ms, mode, plan))
      ensures personStatus == PersonStatus(old(View()), Report(ms, mode, plan))
    {
      areaStatus := 0;
      if noPerson > 0 && ms - noPerson >= plan.noPersonTime * 1000 {
        personStatus := 2;
        noPerson := 0;
      } else if people > 0 {
        personStatus := 1;
      } else {
        personStatus := 0;
      }
      if mode == 1 {
        areaStatus := ReportWaiting(ms, plan);
      } else if mode == 2 {
        areaStatus := ReportCrossing(ms, plan);
      }
    }
  }

  const AREA_MAX := 8

  datatype Count = Count(people: nat, up: nat, down: nat)

  function SampleOf(ms: int, now: int, c: Count, plan: Plan): Event {
    Frame(ms, now, c.people, c.up, c.down, plan)
  }

  /** All areas of one camera.  `now[p]` is the clock reading while area `p` is handled. */
  class Camera {
    const areas: seq<Area>

    ghost predicate Valid() {
      |areas| == AREA_MAX && forall p, q :: 0 <= p < q < |areas| ==> areas[p] != areas[q]
    }

    constructor ()
      ensures Valid() && fresh(areas)
      ensures forall p :: 0 <= p < AREA_MAX ==> areas[p].View() == IDLE
    {
      var all: seq<Area> := [];
      while |all| < AREA_MAX
        invariant |all| <= AREA_MAX && fresh(all)
        invariant forall p, q :: 0 <= p < q < |all| ==> all[p] != all[q]
        invariant forall p :: 0 <= p < |all| ==> all[p].View() == IDLE
      {
        var area := new Area();
        all := all + [area];
      }
      areas := all;
    }

    ghost function Views(): (v: seq<Timers>)
      requires Valid()
      reads areas
      ensures |v| == AREA_MAX && forall p :: 0 <= p < AREA_MAX ==> v[p] == areas[p].View()
    {
      seq(AREA_MAX, p requires 0 <= p < AREA_MAX reads areas => areas[p].View())
    }

    /** One picture: each configured area takes its own counts with its own plan in
        force, and the areas beyond the configured number keep their timers. */
    method HandlePicture(num: nat, ms: int, now: seq<int>, counts: seq<Count>, plans: seq<seq<Plan>>,
                         hour: nat, minute: nat)
      returns (ghost chosen: seq<Plan>)
      requires Valid() && |now| == |counts| == |plans| == AREA_MAX
      modifies areas
      ensures |chosen| == if num < AREA_MAX then num else AREA_MAX
      ensures forall p :: 0 <= p < |chosen| ==> InForce(plans[p], hour, minute, chosen[p])
      ensures forall p :: 0 <= p < |chosen| ==>
        Views()[p] == FrameStep(old(Views())[p], SampleOf(ms, now[p], counts[p], chosen[p]))
      ensures forall p :: |chosen| <= p < AREA_MAX ==> Views()[p] == old(Views())[p]
    {
      chosen := [];
      ghost var before, view := Views(), Views();
      var p := 0;
      while p < num && p < AREA_MAX
        invariant 0 <= p <= AREA_MAX && p <= num && |chosen| == p && |view| == AREA_MAX
        invariant forall q :: 0 <= q < AREA_MAX ==> areas[q].View() == view[q]
        invariant forall q :: 0 <= q < p ==> InForce(plans[q], hour, minute, chosen[q])
        invariant forall q :: 0 <= q < p ==> view[q] == FrameStep(before[q], SampleOf(ms, now[q], counts[q], chosen[q]))
        invariant forall q :: p <= q < AREA_MAX ==> view[q] == before[q]
      {
        var plan := SelectPlan(plans[p], hour, minute);
        HandleArea(p, ms, now[p], counts[p], plan, view);
        view := view[p := FrameStep(before[p], SampleOf(ms, now[p], counts[p], plan))];
        chosen := chosen + [plan];
        p := p + 1;
      }
      assert Views() == view;
    }

    method HandleArea(p: nat, ms: int, now: int, count: Count, plan: Plan, ghost view: seq<Timers>)
      requires Valid() && p < AREA_MAX && |view| == AREA_MAX
      requires forall q :: 0 <= q < AREA_MAX ==> areas[q].View() == view[q]
      modifies areas[p]
      ensures forall q :: 0 <= q < AREA_MAX && q != p ==> areas[q].View() == view[q]
      ensures areas[p].View() == FrameStep(view[p], SampleOf(ms, now, count, plan))
    {
      areas[p].HandleFrame(ms, now, count.people, count.up, count.down, plan);
    }
  }
}
