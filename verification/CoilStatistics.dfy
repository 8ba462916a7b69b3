/** Statistics of the coils under the JIERUI protocol (zen_rtsp/cam_alg.c,
    zen_rtsp/sig_service.c).  Every picture adds the marks and slices of each coil to a
    staging record; the staging record is then added, under a lock, to the record that a
    timer thread drains, and zeroed.  Only the first coil of a lane is passed on. */
module CoilStatistics {
  import opened Coil

  const MAX_LANE_NUM := 8
  const LANE_COIL_MAX := 2

  /** The sums of `l_d_t` that are used. */
  datatype Sums = Sums(
    existDuration: int, passNumber: int, speedSum: int, vehLenSum: int, headTimeSum: int,
    carA: int, carB: int, carC: int)

  const ZERO := Sums(0, 0, 0, 0, 0, 0, 0, 0)

  function Add(a: Sums, b: Sums): Sums {
    Sums(a.existDuration + b.existDuration, a.passNumber + b.passNumber, a.speedSum + b.speedSum,
         a.vehLenSum + b.vehLenSum, a.headTimeSum + b.headTimeSum,
         a.carA + b.carA, a.carB + b.carB, a.carC + b.carC)
  }

  /** What a picture says about a lane beside the flags of its coils. */
  datatype Detail = Detail(averageSpeed: nat, queueLen: nat, vehLen: seq<nat>, headTime: seq<int>)

  /** The vehicle length classes of the configuration. */
  datatype Classes = Classes(large: nat, medium: nat)

  /** What one picture adds for one coil. */
  function Delta(stay: int, out: bool, speed: nat, vehLen: nat, headTime: int, classes: Classes): Sums {
    if !out then ZERO.(existDuration := stay)
    else Sums(stay, 1, speed, vehLen, headTime,
              if vehLen > classes.large then 1 else 0,
              if vehLen <= classes.large && vehLen > classes.medium then 1 else 0,
              if vehLen <= classes.large && vehLen <= classes.medium then 1 else 0)
  }

  // ---------------------------------------------------------------- one lane

  /** The record of a lane that waits to be drained. */
  datatype Held = Held(sums: Sums, queueLen: nat)

  const NOTHING := Held(ZERO, 0)

  function Hold(h: Held, d: Sums, queueLen: nat): Held {
    Held(Add(h.sums, d), if queueLen > h.queueLen then queueLen else h.queueLen)
  }

  /** What happens to a lane: a picture, or an attempt of the timer thread to drain. */
  datatype Event =
    | Picture(sample: Sample, speed: nat, vehLen: nat, headTime: int, queueLen: nat, classes: Classes)
    | Drain

  /** The records handed out so far, the latest first. */
  datatype Log = Nil | Cons(latest: Held, earlier: Log)

  /** A lane with its first coil; `ready` is the flag of new data, `drained` what has been
      handed out so far. */
  datatype Lane = Lane(coil: State, held: Held, ready: bool, drained: Log)

  const EMPTY := Lane(CLEARED, NOTHING, false, Nil)

  function Take(s: Lane, c: State, d: Sums, queueLen: nat): Lane {
    Lane(c, Hold(s.held, d, queueLen), true, s.drained)
  }

  function HandOut(s: Lane): Lane {
    if s.ready then Lane(s.coil, NOTHING, false, Cons(s.held, s.drained)) else s
  }

  function DeltaOfPicture(c: State, e: Event): Sums
    requires e.Picture?
  {
    Delta(c.stay, c.outCar, e.speed, e.vehLen, e.headTime, e.classes)
  }

  function LaneStep(s: Lane, e: Event): Lane {
    if e.Drain? then HandOut(s)
    else
      var c := Coil.Step(s.coil, e.sample);
      Take(s, c, DeltaOfPicture(c, e), e.queueLen)
  }

  function LaneRun(es: seq<Event>): Lane {
    if es == [] then EMPTY else LaneStep(LaneRun(es[..|es| - 1]), es[|es| - 1])
  }

  /** The samples of the pictures in a run. */
  function Samples(es: seq<Event>): seq<Sample> {
    if es == [] then []
    else Samples(es[..|es| - 1]) + if es[|es| - 1].Picture? then [es[|es| - 1].sample] else []
  }

  function Drained(log: Log): Sums {
    match log
    case Nil => ZERO
    case Cons(r, earlier) => Add(Drained(earlier), r.sums)
  }

  ghost predicate AllClassified(log: Log) {
    log.Cons? ==> Classified(log.latest.sums) && AllClassified(log.earlier)
  }

  /** The longest queue since the last drain that found data. */
  function LongestQueue(es: seq<Event>): nat {
    if es == [] || es[|es| - 1].Drain? then 0
    else
      var longest := LongestQueue(es[..|es| - 1]);
      if es[|es| - 1].queueLen > longest then es[|es| - 1].queueLen else longest
  }

  /** Every vehicle is counted in exactly one length class. */
  ghost predicate Classified(s: Sums) {
    SumsTo(s.carA, s.carB, s.carC, s.passNumber)
  }

  predicate SumsTo(a: int, b: int, c: int, total: int) {
    a + b + c == total
  }

  /** The coil, the total stay and leaves so far, and the longest queue since the last drain. */
  ghost predicate LaneInv(c: State, stay: int, leaves: int, longest: nat, s: Lane) {
    && s.coil == c
    && (!s.ready ==> s.held.queueLen == 0)
    && s.held.queueLen == longest
    && Classified(s.held.sums) && AllClassified(s.drained)
    && Drained(s.drained).existDuration + s.held.sums.existDuration == stay
    && Drained(s.drained).passNumber + s.held.sums.passNumber == leaves
  }

  lemma {:induction false} SamplesSnoc(xs: seq<Sample>, x: Sample)
    ensures Coil.Run(xs + [x]) == Coil.Step(Coil.Run(xs), x)
    ensures StayTotal(xs + [x]) == StayTotal(xs) + Coil.Run(xs + [x]).stay
    ensures LeaveCount(xs + [x]) == LeaveCount(xs) + if Coil.Run(xs + [x]).outCar then 1 else 0
  {
    assert (xs + [x])[..|xs|] == xs;
  }

  lemma {:induction false} DeltaCounts(c: State, e: Event)
    requires e.Picture?
    ensures var d := DeltaOfPicture(c, e);
      d.existDuration == c.stay && d.passNumber == (if c.outCar then 1 else 0) && Classified(d)
  {
  }

  lemma {:induction false} TakeKeepsInv(c: State, stay: int, leaves: int, longest: nat, s: Lane,
                                        c': State, d: Sums, queueLen: nat)
    requires LaneInv(c, stay, leaves, longest, s) && Classified(d)
    ensures LaneInv(c', stay + d.existDuration, leaves + d.passNumber,
                    if queueLen > longest then queueLen else longest, Take(s, c', d, queueLen))
  {
  }

  lemma {:induction false} HandOutKeepsInv(c: State, stay: int, leaves: int, longest: nat, s: Lane)
    requires LaneInv(c, stay, leaves, longest, s)
    ensures LaneInv(c, stay, leaves, 0, HandOut(s))
  {
  }

  lemma {:induction false} LaneRunInv(es: seq<Event>)
    ensures var xs := Samples(es);
      LaneInv(Coil.Run(xs), StayTotal(xs), LeaveCount(xs), LongestQueue(es), LaneRun(es))
  {
    if es != [] {
      var rest, e := es[..|es| - 1], es[|es| - 1];
      var xs, s := Samples(rest), LaneRun(rest);
      LaneRunInv(rest);
      if e.Picture? {
        var c := Coil.Step(Coil.Run(xs), e.sample);
        SamplesSnoc(xs, e.sample);
        DeltaCounts(c, e);
        TakeKeepsInv(Coil.Run(xs), StayTotal(xs), LeaveCount(xs), LongestQueue(rest), s, c, DeltaOfPicture(c, e), e.queueLen);
      } else {
        HandOutKeepsInv(Coil.Run(xs), StayTotal(xs), LeaveCount(xs), LongestQueue(rest), s);
        assert Samples(es) == xs;
      }
    }
  }

  /** Sensible flags, and a clock that does not tick while a picture is handled. */
  ghost predicate OneReading(xs: seq<Sample>) {
    && KnownFlags(xs) && LeavesAfterStay(xs) && Timed(xs)
    && forall i :: 0 <= i < |xs| ==> xs[i].first == xs[i].second
  }

  /** Conservation: in every interleaving of pictures and drains, what has been handed out
      and what still waits are together the vehicles that left and the time they were on
      the coil, up to what two readings lose and stray flags add; every record handed out is
      fully classified. */
  lemma {:induction false} NothingIsLost(es: seq<Event>)
    ensures var s, xs := LaneRun(es), Samples(es);
      var total := Add(Drained(s.drained), s.held.sums);
      && total.passNumber == LeaveCount(xs)
      && total.existDuration == StayTotal(xs)
      && (KnownFlags(xs) ==> total.existDuration + Lost(xs) == OccupiedTime(xs) + Phantom(xs))
      && (OneReading(xs) ==> total.existDuration == OccupiedTime(xs))
      && AllClassified(s.drained)
  {
    LaneRunInv(es);
    if KnownFlags(Samples(es)) {
      SlicesTelescope(Samples(es));
      StayIsOccupiedTime(Samples(es));
    }
  }

  // ---------------------------------------------------------------- which vehicles, and how fast

  /** The last event is a picture in which a vehicle leaves the coil: its flag is 2, or 0 after
      a 1. */
  predicate VehicleLeaves(es: seq<Event>) {
    es != [] && es[|es| - 1].Picture? &&
    var xs := Samples(es[..|es| - 1]);
    es[|es| - 1].sample.flag == 2 || (es[|es| - 1].sample.flag == 0 && xs != [] && xs[|xs| - 1].flag == 1)
  }

  /** The leaves of a run, by length of the vehicle, and their sums. */
  datatype Tally = Tally(count: int, large: int, medium: int, small: int, speed: int, length: int, headTime: int)

  function Tallying(t: Tally, e: Event, leaves: bool): Tally
    requires e.Picture?
  {
    if !leaves then t
    else
      Tally(t.count + 1, t.large + IsLonger(e.vehLen, e.classes.large),
            t.medium + Between(e.vehLen, e.classes.medium, e.classes.large),
            t.small + IsAtMost(e.vehLen, e.classes.medium, e.classes.large),
            t.speed + e.speed, t.length + e.vehLen, t.headTime + e.headTime)
  }

  function LeaveTally(es: seq<Event>): Tally {
    if es == [] then Tally(0, 0, 0, 0, 0, 0, 0)
    else
      var t, e := LeaveTally(es[..|es| - 1]), es[|es| - 1];
      if e.Picture? then Tallying(t, e, VehicleLeaves(es)) else t
  }

  function IsLonger(length: nat, high: nat): int {
    if high < length then 1 else 0
  }

  function Between(length: nat, low: nat, high: nat): int {
    if low < length <= high then 1 else 0
  }

  function IsAtMost(length: nat, low: nat, high: nat): int {
    if length <= low && length <= high then 1 else 0
  }

  ghost predicate Tallied(s: Sums, t: Tally) {
    && s.passNumber == t.count && s.carA == t.large && s.carB == t.medium && s.carC == t.small
    && s.speedSum == t.speed && s.vehLenSum == t.length && s.headTimeSum == t.headTime
  }

  /** Handed out and waiting, together. */
  ghost predicate Totalled(s: Lane, t: Tally) {
    Tallied(Add(Drained(s.drained), s.held.sums), t)
  }

  lemma {:induction false} DeltaTallies(s: Sums, t: Tally, c: State, e: Event)
    requires e.Picture? && Tallied(s, t)
    ensures Tallied(Add(s, DeltaOfPicture(c, e)), Tallying(t, e, c.outCar))
  {
  }

  lemma {:induction false} TakeTallies(s: Lane, t: Tally, c: State, e: Event)
    requires e.Picture? && Totalled(s, t)
    ensures Totalled(Take(s, c, DeltaOfPicture(c, e), e.queueLen), Tallying(t, e, c.outCar))
  {
    var d := DeltaOfPicture(c, e);
    DeltaTallies(Add(Drained(s.drained), s.held.sums), t, c, e);
    assert Add(Drained(s.drained), Add(s.held.sums, d)) == Add(Add(Drained(s.drained), s.held.sums), d);
  }

  lemma {:induction false} HandOutTallies(s: Lane, t: Tally)
    requires Totalled(s, t)
    ensures Totalled(HandOut(s), t)
  {
  }

  lemma {:induction false} LaneTallies(s: Lane, e: Event, t: Tally)
    requires Totalled(s, t)
    ensures var s' := LaneStep(s, e);
      Totalled(s', if e.Picture? then Tallying(t, e, s'.coil.outCar) else t)
  {
    if e.Picture? {
      TakeTallies(s, t, Coil.Step(s.coil, e.sample), e);
    } else {
      HandOutTallies(s, t);
    }
  }

  lemma {:induction false} OutIsLeaving(es: seq<Event>)
    requires es != [] && es[|es| - 1].Picture?
    ensures LaneStep(LaneRun(es[..|es| - 1]), es[|es| - 1]).coil.outCar <==> VehicleLeaves(es)
  {
    LaneRunInv(es[..|es| - 1]);
    LastFlag(Samples(es[..|es| - 1]));
  }

  lemma {:induction false} TallyStep(es: seq<Event>, s': Lane)
    requires es != [] && s' == LaneStep(LaneRun(es[..|es| - 1]), es[|es| - 1])
    requires Totalled(LaneRun(es[..|es| - 1]), LeaveTally(es[..|es| - 1]))
    ensures Totalled(s', LeaveTally(es))
  {
    var rest, e := es[..|es| - 1], es[|es| - 1];
    LaneTallies(LaneRun(rest), e, LeaveTally(rest));
    if e.Picture? {
      OutIsLeaving(es);
    }
  }

  lemma {:induction false} NothingTallied(a: Sums, b: Sums)
    requires a == b == Sums(0, 0, 0, 0, 0, 0, 0, 0)
    ensures Tallied(Add(a, b), Tally(0, 0, 0, 0, 0, 0, 0))
  {
  }

  /** In every interleaving, handed out plus waiting: the three counts are the leaves of the
      vehicles above the upper limit, between the two, and at most both, and the three sums are
      those of speed, length and head time over all leaves. */
  lemma {:induction false} EveryLeaveIsTallied(es: seq<Event>)
    ensures Totalled(LaneRun(es), LeaveTally(es))
  {
    if es == [] {
      assert Drained(LaneRun(es).drained) == ZERO && LaneRun(es).held.sums == ZERO;
      NothingTallied(ZERO, ZERO);
    } else {
      EveryLeaveIsTallied(es[..|es| - 1]);
      TallyStep(es, LaneRun(es));
    }
  }

  lemma {:induction false} ReadyAfterPicture(es: seq<Event>)
    ensures LaneRun(es).ready <==> es != [] && es[|es| - 1].Picture?
    ensures !LaneRun(es).ready ==> LongestQueue(es) == 0
  {
  }

  /** A drain hands out the longest queue since the drain before it, and hands out nothing
      exactly when there was no picture since. */
  lemma {:induction false} DrainGivesLongestQueue(es: seq<Event>)
    ensures var s, s' := LaneRun(es), LaneRun(es + [Drain]);
      if es != [] && es[|es| - 1].Picture?
      then s'.drained == Cons(s.held, s.drained) && s.held.queueLen == LongestQueue(es)
      else s'.drained == s.drained && LongestQueue(es) == 0
  {
    assert (es + [Drain])[..|es|] == es;
    ReadyAfterPicture(es);
    assert LaneRun(es).held.queueLen == LongestQueue(es) by {
      LaneRunInv(es);
    }
  }

  // ---------------------------------------------------------------- one camera

  /** What the coil machines left after a picture, per lane and coil. */
  datatype CoilMarks = CoilMarks(stay: int, out: bool)

  class Camera {
    const staged: array2<Sums>
    const stagedQueue: array<nat>
    const held: array<Sums>
    const heldQueue: array<nat>
    var ready: bool

    ghost predicate Shaped() {
      && staged.Length0 == MAX_LANE_NUM && staged.Length1 == LANE_COIL_MAX
      && stagedQueue.Length == held.Length == heldQueue.Length == MAX_LANE_NUM
      && stagedQueue != heldQueue
    }

    /** Between pictures the staging record is zero. */
    ghost predicate Valid()
      reads this, staged, stagedQueue
    {
      && Shaped()
      && (forall i, j :: 0 <= i < MAX_LANE_NUM && 0 <= j < LANE_COIL_MAX ==> staged[i, j] == ZERO)
      && (forall i :: 0 <= i < MAX_LANE_NUM ==> stagedQueue[i] == 0)
    }

    ghost function HeldOf(i: nat): Held
      requires Shaped() && i < MAX_LANE_NUM
      reads held, heldQueue
    {
      Held(held[i], heldQueue[i])
    }

    constructor ()
      ensures Valid() && !ready && forall i :: 0 <= i < MAX_LANE_NUM ==> HeldOf(i) == NOTHING
    {
      staged := new Sums[MAX_LANE_NUM, LANE_COIL_MAX]((_, _) => ZERO);
      stagedQueue := new nat[MAX_LANE_NUM](_ => 0);
      held := new Sums[MAX_LANE_NUM](_ => ZERO);
      heldQueue := new nat[MAX_LANE_NUM](_ => 0);
      ready := false;
    }

    ghost function DeltaOf(c: CoilMarks, lane: Detail, classes: Classes, j: nat): Sums
      requires j < |lane.vehLen| == |lane.headTime|
    {
      Delta(c.stay, c.out, lane.averageSpeed, lane.vehLen[j], lane.headTime[j], classes)
    }

    /** One entry per lane and coil. */
    ghost predicate Fits(marks: seq<seq<CoilMarks>>, lanes: seq<Detail>) {
      && |marks| == |lanes| == MAX_LANE_NUM
      && forall i :: 0 <= i < MAX_LANE_NUM ==> |marks[i]| == |lanes[i].vehLen| == |lanes[i].headTime| == LANE_COIL_MAX
    }

    /** Add the marks of one picture to the staging record (`process_nanjing`). */
    method Accumulate(marks: seq<seq<CoilMarks>>, lanes: seq<Detail>, classes: Classes)
      requires Valid() && Fits(marks, lanes)
      modifies staged, stagedQueue
      ensures forall i, j :: 0 <= i < MAX_LANE_NUM && 0 <= j < LANE_COIL_MAX ==>
        staged[i, j] == DeltaOf(marks[i][j], lanes[i], classes, j)
      ensures forall i :: 0 <= i < MAX_LANE_NUM ==> stagedQueue[i] == lanes[i].queueLen
    {
      var i := 0;
      while i < MAX_LANE_NUM
        invariant 0 <= i <= MAX_LANE_NUM
        invariant forall a, j :: 0 <= a < i && 0 <= j < LANE_COIL_MAX ==> staged[a, j] == DeltaOf(marks[a][j], lanes[a], classes, j)
        invariant forall a, j :: i <= a < MAX_LANE_NUM && 0 <= j < LANE_COIL_MAX ==> staged[a, j] == ZERO
        invariant forall a :: 0 <= a < i ==> stagedQueue[a] == lanes[a].queueLen
      {
        AccumulateLane(i, marks[i], lanes[i], classes);
        i := i + 1;
      }
    }

    method AccumulateLane(i: nat, marks: seq<CoilMarks>, lane: Detail, classes: Classes)
      requires Shaped() && i < MAX_LANE_NUM && |marks| == |lane.vehLen| == |lane.headTime| == LANE_COIL_MAX
      requires forall j :: 0 <= j < LANE_COIL_MAX ==> staged[i, j] == ZERO
      modifies staged, stagedQueue
      ensures forall j :: 0 <= j < LANE_COIL_MAX ==> staged[i, j] == DeltaOf(marks[j], lane, classes, j)
      ensures forall a, b :: 0 <= a < MAX_LANE_NUM && 0 <= b < LANE_COIL_MAX && a != i ==> staged[a, b] == old(staged[a, b])
      ensures stagedQueue[i] == lane.queueLen
      ensures forall a :: 0 <= a < MAX_LANE_NUM && a != i ==> stagedQueue[a] == old(stagedQueue[a])
    {
      var j := 0;
      while j < LANE_COIL_MAX
        invariant 0 <= j <= LANE_COIL_MAX
        invariant forall b :: 0 <= b < j ==> staged[i, b] == DeltaOf(marks[b], lane, classes, b)
        invariant forall b :: j <= b < LANE_COIL_MAX ==> staged[i, b] == ZERO
        invariant forall a, b :: 0 <= a < MAX_LANE_NUM && 0 <= b < LANE_COIL_MAX && a != i ==> staged[a, b] == old(staged[a, b])
        invariant j > 0 ==> stagedQueue[i] == lane.queueLen
        invariant forall a :: 0 <= a < MAX_LANE_NUM && a != i ==> stagedQueue[a] == old(stagedQueue[a])
      {
        AccumulateCoil(i, j, marks[j], lane, classes);
        stagedQueue[i] := lane.queueLen;
        j := j + 1;
      }
    }

    method AccumulateCoil(i: nat, j: nat, c: CoilMarks, lane: Detail, classes: Classes)
      requires Shaped() && i < MAX_LANE_NUM && j < LANE_COIL_MAX && staged[i, j] == ZERO
      requires |lane.vehLen| == |lane.headTime| == LANE_COIL_MAX
      modifies staged
      ensures staged[i, j] == DeltaOf(c, lane, classes, j)
      ensures forall a, b :: 0 <= a < MAX_LANE_NUM && 0 <= b < LANE_COIL_MAX && (a != i || b != j) ==> staged[a, b] == old(staged[a, b])
    {
      var s := staged[i, j];
      s := s.(existDuration := s.existDuration + c.stay);
      if c.out {
        s := s.(passNumber := s.passNumber + 1, speedSum := s.speedSum + lane.averageSpeed,
                vehLenSum := s.vehLenSum + lane.vehLen[j], headTimeSum := s.headTimeSum + lane.headTime[j]);
        if lane.vehLen[j] > classes.large {
          s := s.(carA := s.carA + 1);
        } else if lane.vehLen[j] > classes.medium {
          s := s.(carB := s.carB + 1);
        } else {
          s := s.(carC := s.carC + 1);
        }
      }
      staged[i, j] := s;
    }

    /** Pass the first coil of every lane on and zero the staging record
        (`add_jierui_60s_item`). */
    method AddItem()
      requires Shaped()
      modifies this`ready, staged, stagedQueue, held, heldQueue
      ensures Valid() && ready
      ensures forall i :: 0 <= i < MAX_LANE_NUM ==> HeldOf(i) == Hold(old(HeldOf(i)), old(staged[i, 0]), old(stagedQueue[i]))
    {
      var i := 0;
      while i < MAX_LANE_NUM
        invariant 0 <= i <= MAX_LANE_NUM
        invariant forall a, b :: 0 <= a < MAX_LANE_NUM && 0 <= b < LANE_COIL_MAX ==> staged[a, b] == old(staged[a, b])
        invariant forall a :: 0 <= a < MAX_LANE_NUM ==> stagedQueue[a] == old(stagedQueue[a])
        invariant forall a :: 0 <= a < MAX_LANE_NUM ==>
          HeldOf(a) == if a < i then Hold(old(HeldOf(a)), old(staged[a, 0]), old(stagedQueue[a])) else old(HeldOf(a))
      {
        held[i] := Add(held[i], staged[i, 0]);
        if stagedQueue[i] > heldQueue[i] {
          heldQueue[i] := stagedQueue[i];
        }
        i := i + 1;
      }
      forall a, b | 0 <= a < MAX_LANE_NUM && 0 <= b < LANE_COIL_MAX {
        staged[a, b] := ZERO;
      }
      forall a | 0 <= a < MAX_LANE_NUM {
        stagedQueue[a] := 0;
      }
      ready := true;
    }

    /** Hand the record out and zero it (`get_jierui_60s_item`). */
    method GetItem() returns (ok: bool, item: seq<Held>)
      requires Valid()
      modifies this`ready, held, heldQueue
      ensures Valid() && !ready && ok == old(ready)
      ensures ok ==> |item| == MAX_LANE_NUM && forall i :: 0 <= i < MAX_LANE_NUM ==> item[i] == old(HeldOf(i)) && HeldOf(i) == NOTHING
      ensures !ok ==> item == [] && forall i :: 0 <= i < MAX_LANE_NUM ==> HeldOf(i) == old(HeldOf(i))
    {
      ok, item := false, [];
      if ready {
        item := seq(MAX_LANE_NUM, i requires 0 <= i < MAX_LANE_NUM && held.Length == heldQueue.Length == MAX_LANE_NUM
                                    reads held, heldQueue => Held(held[i], heldQueue[i]));
        forall a | 0 <= a < MAX_LANE_NUM {
          held[a] := ZERO;
        }
        forall a | 0 <= a < MAX_LANE_NUM {
          heldQueue[a] := 0;
        }
        ok := true;
        ready := false;
      }
    }

    /** The statistics of one picture: every lane moves as `LaneStep` says. */
    method HandlePicture(marks: seq<seq<CoilMarks>>, lanes: seq<Detail>, classes: Classes)
      requires Valid() && Fits(marks, lanes)
      modifies this`ready, staged, stagedQueue, held, heldQueue
      ensures Valid() && ready
      ensures forall i :: 0 <= i < MAX_LANE_NUM ==>
        HeldOf(i) == Hold(old(HeldOf(i)), DeltaOf(marks[i][0], lanes[i], classes, 0), lanes[i].queueLen)
    {
      Accumulate(marks, lanes, classes);
      AddItem();
    }
  }
}
