/** The statistics of one camera from the flags of its coils to the records handed out
    (`process_nanjing` in zen_rtsp/cam_alg.c and the two functions around the record in
    zen_rtsp/sig_service.c): in every run the arrays hold what the model of each lane says. */
module CoilService {
  import opened Coil
  import opened CoilStatistics

  /** One picture: a sample for each coil, lane by lane, and the details of the lanes. */
  datatype Input = Input(samples: seq<Sample>, lanes: seq<Detail>, classes: Classes)

  const COILS := 16

  predicate Complete(x: Input) {
    && |x.samples| == COILS && |x.lanes| == MAX_LANE_NUM
    && forall i :: 0 <= i < MAX_LANE_NUM ==> |x.lanes[i].vehLen| == |x.lanes[i].headTime| == LANE_COIL_MAX
  }

  /** The picture as lane `i` sees it. */
  function EventOf(x: Input, i: nat): Event
    requires Complete(x) && i < MAX_LANE_NUM
  {
    Picture(x.samples[2 * i], x.lanes[i].averageSpeed, x.lanes[i].vehLen[0], x.lanes[i].headTime[0], x.lanes[i].queueLen, x.classes)
  }

  function EventsOf(x: Input): (es: seq<Event>)
    requires Complete(x)
    ensures |es| == MAX_LANE_NUM && forall i :: 0 <= i < MAX_LANE_NUM ==> es[i] == EventOf(x, i)
  {
    seq(MAX_LANE_NUM, i requires 0 <= i < MAX_LANE_NUM => EventOf(x, i))
  }

  function Drains(): (es: seq<Event>)
    ensures |es| == MAX_LANE_NUM && forall i :: 0 <= i < MAX_LANE_NUM ==> es[i] == Drain
  {
    seq(MAX_LANE_NUM, _ => Drain)
  }

  /** Every run goes on with its own event. */
  function Grown(runs: seq<seq<Event>>, es: seq<Event>): (r: seq<seq<Event>>)
    requires |runs| == |es|
    ensures |r| == |runs| && forall i :: 0 <= i < |r| ==> r[i] == runs[i] + [es[i]]
  {
    if runs == [] then []
    else Grown(runs[..|runs| - 1], es[..|es| - 1]) + [runs[|runs| - 1] + [es[|es| - 1]]]
  }

  /** The lanes after these runs. */
  ghost predicate AreRuns(runs: seq<seq<Event>>, lanes: seq<Lane>) {
    |runs| == |lanes| && forall i :: 0 <= i < |runs| ==> lanes[i] == LaneRun(runs[i])
  }

  function Moved(lanes: seq<Lane>, es: seq<Event>): (r: seq<Lane>)
    requires |lanes| == |es|
    ensures |r| == |lanes| && forall i :: 0 <= i < |r| ==> r[i] == LaneStep(lanes[i], es[i])
  {
    if lanes == [] then []
    else Moved(lanes[..|lanes| - 1], es[..|es| - 1]) + [LaneStep(lanes[|lanes| - 1], es[|es| - 1])]
  }

  lemma {:induction false} RunsGoOn(runs: seq<seq<Event>>, lanes: seq<Lane>, es: seq<Event>)
    requires AreRuns(runs, lanes) && |es| == |lanes|
    ensures AreRuns(Grown(runs, es), Moved(lanes, es))
  {
    forall i | 0 <= i < |runs| ensures Moved(lanes, es)[i] == LaneRun(Grown(runs, es)[i]) {
      assert (runs[i] + [es[i]])[..|runs[i]|] == runs[i];
    }
  }

  function Empties(): (runs: seq<seq<Event>>)
    ensures |runs| == MAX_LANE_NUM && forall i :: 0 <= i < MAX_LANE_NUM ==> runs[i] == []
  {
    seq(MAX_LANE_NUM, _ => [])
  }

  function EmptyLanes(): (lanes: seq<Lane>)
    ensures |lanes| == MAX_LANE_NUM && forall i :: 0 <= i < MAX_LANE_NUM ==> lanes[i] == EMPTY
  {
    seq(MAX_LANE_NUM, _ => EMPTY)
  }

  /** What an array slot shows of a lane. */
  ghost predicate Shows(s: Lane, c: State, held: Held, ready: bool) {
    s.coil == c && s.held == held && s.ready == ready
  }

  lemma {:induction false} PictureShows(s: Lane, e: Event, c: State, held: Held)
    requires e.Picture? && c == Coil.Step(s.coil, e.sample) && held == Hold(s.held, DeltaOfPicture(c, e), e.queueLen)
    ensures Shows(LaneStep(s, e), c, held, true)
  {
  }

  class Service {
    const camera: Camera
    const coils: seq<Record>
    ghost var runs: seq<seq<Event>>
    ghost var lanes: seq<Lane>

    ghost predicate Wired()
    {
      && camera.Shaped() && |coils| == COILS
      && forall k, l :: 0 <= k < l < COILS ==> coils[k] != coils[l]
    }

    ghost predicate Valid()
      reads this, camera, camera.staged, camera.stagedQueue, camera.held, camera.heldQueue, coils
    {
      && Wired() && camera.Valid() && |lanes| == MAX_LANE_NUM && AreRuns(runs, lanes)
      && forall i :: 0 <= i < MAX_LANE_NUM ==> Shows(lanes[i], coils[2 * i].View(), camera.HeldOf(i), camera.ready)
    }

    constructor ()
      ensures Valid() && runs == Empties()
    {
      var cam := new Camera();
      var all: seq<Record> := [];
      while |all| < COILS
        invariant |all| <= COILS && fresh(all)
        invariant cam.Valid() && !cam.ready && forall i :: 0 <= i < MAX_LANE_NUM ==> cam.HeldOf(i) == NOTHING
        invariant forall k, l :: 0 <= k < l < |all| ==> all[k] != all[l]
        invariant forall k :: 0 <= k < |all| ==> all[k].View() == CLEARED
      {
        var c := new Record();
        all := all + [c];
      }
      camera, coils := cam, all;
      runs, lanes := Empties(), EmptyLanes();
    }

    /** The machines of all coils. */
    method MoveCoils(samples: seq<Sample>)
      requires Wired() && |samples| == COILS
      modifies coils
      ensures forall k :: 0 <= k < COILS ==> coils[k].View() == Coil.Step(old(coils[k].View()), samples[k])
    {
      var k := 0;
      while k < COILS
        invariant 0 <= k <= COILS
        invariant forall l :: 0 <= l < COILS ==>
          coils[l].View() == if l < k then Coil.Step(old(coils[l].View()), samples[l]) else old(coils[l].View())
      {
        coils[k].Update(samples[k].flag, samples[k].first, samples[k].second);
        k := k + 1;
      }
    }

    /** What the machines left, lane by lane. */
    method ReadMarks() returns (marks: seq<seq<CoilMarks>>)
      requires Wired()
      ensures |marks| == MAX_LANE_NUM
      ensures forall i :: 0 <= i < MAX_LANE_NUM ==> |marks[i]| == LANE_COIL_MAX && marks[i][0] == CoilMarks(coils[2 * i].stay, coils[2 * i].outCar)
    {
      marks := [];
      var i := 0;
      while i < MAX_LANE_NUM
        invariant 0 <= i <= MAX_LANE_NUM && |marks| == i
        invariant forall a :: 0 <= a < i ==> |marks[a]| == LANE_COIL_MAX && marks[a][0] == CoilMarks(coils[2 * a].stay, coils[2 * a].outCar)
      {
        var near, far := coils[2 * i], coils[2 * i + 1];
        marks := marks + [[CoilMarks(near.stay, near.outCar), CoilMarks(far.stay, far.outCar)]];
        i := i + 1;
      }
    }

    /** The machines and the statistics of one picture. */
    method Process(x: Input, ghost es: seq<Event>)
      requires Valid() && Complete(x) && es == EventsOf(x)
      modifies camera`ready, camera.staged, camera.stagedQueue, camera.held, camera.heldQueue, coils
      ensures camera.Valid() && forall i :: 0 <= i < MAX_LANE_NUM ==>
        Shows(LaneStep(lanes[i], es[i]), coils[2 * i].View(), camera.HeldOf(i), camera.ready)
    {
      MoveCoils(x.samples);
      var marks := ReadMarks();
      camera.HandlePicture(marks, x.lanes, x.classes);
      forall i | 0 <= i < MAX_LANE_NUM
        ensures Shows(LaneStep(lanes[i], es[i]), coils[2 * i].View(), camera.HeldOf(i), true)
      {
        PictureShows(lanes[i], es[i], coils[2 * i].View(), camera.HeldOf(i));
      }
    }

    /** The whole of one picture. */
    method HandlePicture(x: Input)
      requires Valid() && Complete(x)
      modifies this`runs, this`lanes, camera`ready, camera.staged, camera.stagedQueue, camera.held, camera.heldQueue, coils
      ensures Valid() && runs == Grown(old(runs), EventsOf(x))
    {
      ghost var es := EventsOf(x);
      ghost var grown, moved := Grown(runs, es), Moved(lanes, es);
      RunsGoOn(runs, lanes, es);
      Process(x, es);
      assert forall i :: 0 <= i < MAX_LANE_NUM ==> Shows(moved[i], coils[2 * i].View(), camera.HeldOf(i), camera.ready);
      runs, lanes := grown, moved;
    }

    /** One attempt of the timer thread. */
    method Drain() returns (ok: bool, item: seq<Held>)
      requires Valid()
      modifies this`runs, this`lanes, camera`ready, camera.held, camera.heldQueue
      ensures Valid() && runs == Grown(old(runs), Drains())
      ensures ok ==> |item| == MAX_LANE_NUM
      ensures forall i :: 0 <= i < MAX_LANE_NUM ==>
        lanes[i].drained == if ok then Cons(item[i], old(lanes)[i].drained) else old(lanes)[i].drained
    {
      ok, item := camera.GetItem();
      ghost var es := Drains();
      RunsGoOn(runs, lanes, es);
      runs, lanes := Grown(runs, es), Moved(lanes, es);
    }

    /** So at every moment what was handed out of a lane and what its array slots hold are
        the vehicles that left it, by length, with their speeds, lengths and head times, and
        their time on its first coil. */
    lemma {:induction false} NothingIsLostHere(i: nat)
      requires Valid() && i < MAX_LANE_NUM
      ensures var total, xs := Add(Drained(lanes[i].drained), camera.HeldOf(i).sums), Samples(runs[i]);
        && total.passNumber == LeaveCount(xs) && AllClassified(lanes[i].drained)
        && (KnownFlags(xs) ==> total.existDuration + Lost(xs) == OccupiedTime(xs) + Phantom(xs))
        && Tallied(total, LeaveTally(runs[i]))
    {
      NothingIsLost(runs[i]);
      EveryLeaveIsTallied(runs[i]);
    }
  }
}
