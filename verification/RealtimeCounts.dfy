/** Cars counted since the last reset (`pack_realtime_data` and `open_alg` in
    zen_rtsp/cam_alg.c, STARTREALDATA in zen_rtsp/client_net.c).  The detector gives running
    totals; a reset may come between any two of the locked sections. */
module RealtimeCounts {

  const DETECTLANENUMMAX := 8
  const WRAP := 0x1_0000_0000

  /** One coil of one lane: the total seen last, the count, and whether a reset is pending. */
  datatype Counter = Counter(pre: nat, car: nat, flag: bool)

  /** What happens to it: a reset, the lane's turn in a frame, the end of the frame's loop. */
  datatype Step = Reset | Visit(sum: nat) | End

  predicate InRange(c: Counter) {
    c.pre < WRAP && c.car < WRAP
  }

  function Next(c: Counter, s: Step): (r: Counter)
    requires InRange(c) && (s.Visit? ==> s.sum < WRAP)
    ensures InRange(r)
  {
    match s
    case Reset => Counter(0, 0, true)
    case Visit(sum) => Counter(sum, if c.flag then c.car else (c.car + sum - c.pre) % WRAP, c.flag)
    case End => c.(flag := false)
  }

  /** What the frame reports for the coil. */
  function Reported(c: Counter, sum: nat): nat
    requires InRange(c) && sum < WRAP
  {
    if c.flag then 0 else Next(c, Visit(sum)).car
  }

  class Camera {
    const pre: array<nat>
    const car: array<nat>
    var flag: bool

    ghost predicate Valid()
      reads this, pre, car
    {
      && pre != car && pre.Length == car.Length == 2 * DETECTLANENUMMAX
      && forall k :: 0 <= k < pre.Length ==> pre[k] < WRAP && car[k] < WRAP
    }

    /** Coil `k % 2` of lane `k / 2`. */
    ghost function Of(k: nat): Counter
      requires Valid() && k < pre.Length
      reads this, pre, car
      ensures InRange(Of(k))
    {
      Counter(pre[k], car[k], flag)
    }

    constructor ()
      ensures Valid() && fresh(pre) && fresh(car)
      ensures forall k :: 0 <= k < pre.Length ==> Of(k) == Counter(0, 0, false)
    {
      pre := new nat[2 * DETECTLANENUMMAX](_ => 0);
      car := new nat[2 * DETECTLANENUMMAX](_ => 0);
      flag := false;
    }

    method ResetAll()
      requires Valid()
      modifies this, pre, car
      ensures Valid() && forall k :: 0 <= k < pre.Length ==> Of(k) == Next(old(Of(k)), Reset)
    {
      forall k | 0 <= k < pre.Length {
        pre[k] := 0;
      }
      forall k | 0 <= k < car.Length {
        car[k] := 0;
      }
      flag := true;
    }

    /** The locked section for lane `i`. */
    method VisitLane(i: nat, sum1: nat, sum2: nat) returns (vehnum1: nat, vehnum2: nat)
      requires Valid() && i < DETECTLANENUMMAX && sum1 < WRAP && sum2 < WRAP
      modifies pre, car
      ensures Valid() && Of(2 * i) == Next(old(Of(2 * i)), Visit(sum1)) && Of(2 * i + 1) == Next(old(Of(2 * i + 1)), Visit(sum2))
      ensures vehnum1 == Reported(old(Of(2 * i)), sum1) && vehnum2 == Reported(old(Of(2 * i + 1)), sum2)
      ensures forall k :: 0 <= k < pre.Length && k != 2 * i && k != 2 * i + 1 ==> Of(k) == old(Of(k))
    {
      var k, l := 2 * i, 2 * i + 1;
      if !flag {
        car[k] := (car[k] + sum1 - pre[k]) % WRAP;
        vehnum1 := car[k];
        car[l] := (car[l] + sum2 - pre[l]) % WRAP;
        vehnum2 := car[l];
      } else {
        vehnum1, vehnum2 := 0, 0;
      }
      pre[k] := sum1;
      pre[l] := sum2;
    }

    /** The section after the loop. */
    method EndFrame()
      requires Valid()
      modifies this`flag
      ensures Valid() && forall k :: 0 <= k < pre.Length ==> Of(k) == Next(old(Of(k)), End)
    {
      if flag {
        flag := false;
      }
    }
  }

  // ---------------------------------------------------------------- runs

  predicate Sums(run: seq<Step>) {
    forall n :: 0 <= n < |run| && run[n].Visit? ==> run[n].sum < WRAP
  }

  function Run(run: seq<Step>): (c: Counter)
    requires Sums(run)
    ensures InRange(c)
  {
    if run == [] then Counter(0, 0, false) else Next(Run(run[..|run| - 1]), run[|run| - 1])
  }

  /** Whether the last reset is still pending. */
  predicate Pending(run: seq<Step>) {
    run != [] && (run[|run| - 1].Reset? || (run[|run| - 1].Visit? && Pending(run[..|run| - 1])))
  }

  /** The total seen last since the last reset. */
  function Last(run: seq<Step>): nat {
    if run == [] || run[|run| - 1].Reset? then 0
    else if run[|run| - 1].Visit? then run[|run| - 1].sum
    else Last(run[..|run| - 1])
  }

  /** The total the count starts from: the last one seen while the reset was pending. */
  function Base(run: seq<Step>): nat {
    if run == [] || run[|run| - 1].Reset? then 0
    else if run[|run| - 1].Visit? && Pending(run[..|run| - 1]) then run[|run| - 1].sum
    else Base(run[..|run| - 1])
  }

  /** In every interleaving the count is the growth of the total since its base, whatever
      wraps on the way. */
  lemma {:induction false} CountIsGrowth(run: seq<Step>)
    requires Sums(run)
    ensures Run(run).flag == Pending(run) && Run(run).pre == Last(run) && Base(run) < WRAP
    ensures Run(run).car == (Last(run) - Base(run)) % 0x1_0000_0000
    ensures Pending(run) ==> Base(run) == Last(run)
  {
    if run != [] {
      CountIsGrowth(run[..|run| - 1]);
      var c, s := Run(run[..|run| - 1]), run[|run| - 1];
      if s.Visit? && !c.flag {
        Telescopes(Base(run), c.pre, s.sum);
      }
    }
  }

  lemma {:induction false} Telescopes(base: int, pre: int, sum: int)
    ensures ((pre - base) % WRAP + sum - pre) % WRAP == (sum - base) % WRAP
  {
  }

  /** And what a frame reports is that growth up to its own total, or nothing while a reset
      is pending. */
  lemma {:induction false} ReportIsGrowth(run: seq<Step>, sum: nat)
    requires Sums(run + [Visit(sum)]) && sum < WRAP
    ensures Sums(run) && Reported(Run(run), sum) == if Pending(run) then 0 else (sum - Base(run)) % 0x1_0000_0000
  {
    forall n | 0 <= n < |run| && run[n].Visit? ensures run[n].sum < WRAP {
      assert (run + [Visit(sum)])[n] == run[n];
    }
    CountIsGrowth(run);
    Telescopes(Base(run), Run(run).pre, sum);
  }

  predicate NoReset(t: seq<Step>) {
    forall n :: 0 <= n < |t| ==> !t[n].Reset?
  }

  lemma {:induction false} BaseStays(h: seq<Step>, t: seq<Step>)
    requires h != [] && h[|h| - 1].End? && NoReset(t)
    ensures Base(h + t) == Base(h) && !Pending(h + t)
  {
    if t == [] {
      assert h + t == h;
    } else {
      var m := |t| - 1;
      BaseStays(h, t[..m]);
      assert (h + t)[..|h + t| - 1] == h + t[..m];
      assert (h + t)[|h + t| - 1] == t[m];
    }
  }

  /** A reset that comes before the lane's turn: the count is the growth since the first
      frame after it. */
  lemma {:induction false} ResetBeforeTurn(h: seq<Step>, first: nat, t: seq<Step>)
    requires Sums(h + [Reset, Visit(first), End] + t) && NoReset(t)
    ensures var run := h + [Reset, Visit(first), End] + t;
      Run(run).car == (Last(run) - first) % WRAP && !Run(run).flag
    ensures forall sum: nat :: sum < WRAP ==>
      Reported(Run(h + [Reset, Visit(first), End] + t), sum) == (sum - first) % WRAP
  {
    var g := h + [Reset, Visit(first), End];
    assert g[..|g| - 1] == h + [Reset, Visit(first)] && g[|g| - 1] == End;
    var f := h + [Reset, Visit(first)];
    assert f[..|f| - 1] == h + [Reset] && f[|f| - 1] == Visit(first);
    assert Pending(h + [Reset]);
    BaseStays(g, t);
    CountIsGrowth(g + t);
    forall sum: nat | sum < WRAP ensures Reported(Run(g + t), sum) == (sum - first) % WRAP {
      ReportIsGrowth(g + t, sum);
    }
  }

  /** The frame with the first total after a reset reports nothing. */
  lemma {:induction false} FirstAfterReset(h: seq<Step>, first: nat)
    requires Sums(h) && first < WRAP
    ensures Sums(h + [Reset]) && Reported(Run(h + [Reset]), first) == 0
  {
    assert Pending(h + [Reset]);
    ReportIsGrowth(h + [Reset], first);
  }

  /** A reset that comes after the lane's turn in a frame is undone by the end of that frame:
      from then on the count is the whole total, and it is the growth since the reset just
      when the total was still zero then. */
  lemma {:induction false} ResetAfterTurn(h: seq<Step>, seen: nat, t: seq<Step>)
    requires Sums(h + [Visit(seen), Reset, End] + t) && NoReset(t)
    ensures var run := h + [Visit(seen), Reset, End] + t;
      && Run(run).car == Last(run) % WRAP && !Run(run).flag
      && (Run(run).car == (Last(run) - seen) % WRAP <==> seen == 0)
    ensures forall sum: nat :: sum < WRAP ==>
      var reported := Reported(Run(h + [Visit(seen), Reset, End] + t), sum);
      reported == sum && (reported == (sum - seen) % WRAP <==> seen == 0)
  {
    var run := h + [Visit(seen), Reset, End] + t;
    FromZero(h, seen, t);
    CountIsGrowth(run);
    assert run[|h|] == Visit(seen);
    SameGrowth(Last(run), seen);
    forall sum: nat | sum < WRAP
      ensures Reported(Run(run), sum) == sum && (sum == (sum - seen) % WRAP <==> seen == 0)
    {
      ReportIsGrowth(run, sum);
      SameGrowth(sum, seen);
    }
  }

  lemma {:induction false} FromZero(h: seq<Step>, seen: nat, t: seq<Step>)
    requires NoReset(t)
    ensures Base(h + [Visit(seen), Reset, End] + t) == 0 && !Pending(h + [Visit(seen), Reset, End] + t)
  {
    var g, f := h + [Visit(seen), Reset, End], h + [Visit(seen), Reset];
    assert g[..|g| - 1] == f && g[|g| - 1] == End && f[|f| - 1] == Reset;
    BaseStays(g, t);
  }

  lemma {:induction false} SameGrowth(last: int, seen: nat)
    requires seen < WRAP
    ensures last % WRAP == (last - seen) % WRAP <==> seen == 0
  {
  }
}
