/** One virtual coil (zen_rtsp/cam_alg.c).  For every picture the detector reports a flag:
    0 nothing on the coil, 1 a vehicle on it, 2 a vehicle has just left.  The machine turns
    flags into enter and leave marks and cuts the time on the coil into slices. */
module Coil {

  /** A picture: its flag and the two clock readings the machine may take for it. */
  datatype Sample = Sample(flag: nat, first: int, second: int)

  /** The fields of `coil_rst_info_t` that the machine uses. */
  datatype State = State(inCar: bool, outCar: bool, last: nat, inTime: int, stay: int)

  const CLEARED := State(false, false, 0, 0, 0)

  predicate Enters(last: nat, flag: nat) {
    flag == 1 && (last == 0 || last == 2)
  }

  predicate Leaves(last: nat, flag: nat) {
    flag == 2 || (flag == 0 && last == 1)
  }

  predicate Stays(last: nat, flag: nat) {
    flag == 1 && last == 1
  }

  function Step(c: State, x: Sample): State {
    State(
      Enters(c.last, x.flag), Leaves(c.last, x.flag), x.flag,
      if Enters(c.last, x.flag) then x.first
      else if Stays(c.last, x.flag) then x.second
      else if Leaves(c.last, x.flag) || x.flag == 0 then 0 else c.inTime,
      if Leaves(c.last, x.flag) || Stays(c.last, x.flag) then x.first - c.inTime
      else if Enters(c.last, x.flag) || x.flag == 0 then 0 else c.stay)
  }

  class Record {
    var inCar: bool
    var outCar: bool
    var last: nat
    var inTime: int
    var stay: int

    ghost function View(): State
      reads this
    {
      State(inCar, outCar, last, inTime, stay)
    }

    constructor ()
      ensures View() == CLEARED
    {
      inCar, outCar, last, inTime, stay := false, false, 0, 0, 0;
    }

    method Update(flag: nat, first: int, second: int)
      modifies this
      ensures View() == Step(old(View()), Sample(flag, first, second))
    {
      inCar, outCar := false, false;
      if flag == 2 || (flag == 0 && last == 1) {
        inCar, outCar := false, true;
        stay := first - inTime;
        inTime := 0;
      } else if flag == 1 && (last == 0 || last == 2) {
        inCar, outCar := true, false;
        inTime := first;
        stay := 0;
      } else if flag == 0 {
        inCar, outCar := false, false;
        inTime := 0;
        stay := 0;
      } else if last == 1 && flag == 1 {
        stay := first - inTime;
        inTime := second;
      }
      last := flag;
    }
  }

  // ---------------------------------------------------------------- runs

  function Run(xs: seq<Sample>): State {
    if xs == [] then CLEARED else Step(Run(xs[..|xs| - 1]), xs[|xs| - 1])
  }

  lemma {:induction false} LastFlag(xs: seq<Sample>)
    ensures Run(xs).last == if xs == [] then 0 else xs[|xs| - 1].flag
  {
  }

  datatype Mark = In | Out

  /** The marks set so far, in order. */
  function Marks(xs: seq<Sample>): seq<Mark> {
    if xs == [] then []
    else
      var rest, c := Marks(xs[..|xs| - 1]), Run(xs);
      rest + (if c.inCar then [In] else []) + (if c.outCar then [Out] else [])
  }

  predicate KnownFlags(xs: seq<Sample>) {
    forall i :: 0 <= i < |xs| ==> xs[i].flag <= 2
  }

  /** Flag 2 comes only right after flag 1. */
  ghost predicate LeavesAfterStay(xs: seq<Sample>) {
    forall i :: 0 <= i < |xs| && xs[i].flag == 2 ==> i > 0 && xs[i - 1].flag == 1
  }

  /** In, Out, In, Out, ... */
  ghost predicate Alternates(marks: seq<Mark>) {
    forall i :: 0 <= i < |marks| ==> marks[i] == if i % 2 == 0 then In else Out
  }

  lemma {:induction false} MarksStep(xs: seq<Sample>)
    requires xs != []
    ensures var last := if |xs| == 1 then 0 else xs[|xs| - 2].flag;
      Marks(xs) == Marks(xs[..|xs| - 1]) +
        (if Enters(last, xs[|xs| - 1].flag) then [In] else if Leaves(last, xs[|xs| - 1].flag) then [Out] else [])
  {
    LastFlag(xs[..|xs| - 1]);
  }

  lemma {:induction false} MarksAlternateInv(xs: seq<Sample>)
    requires KnownFlags(xs) && LeavesAfterStay(xs)
    ensures Alternates(Marks(xs))
    ensures |Marks(xs)| % 2 == if xs != [] && xs[|xs| - 1].flag == 1 then 1 else 0
  {
    if xs != [] {
      MarksAlternateInv(xs[..|xs| - 1]);
      MarksStep(xs);
    }
  }

  /** Enter and leave marks strictly alternate exactly for the flag sequences in which
      every 2 follows a 1. */
  lemma {:induction false} MarksAlternate(xs: seq<Sample>)
    requires KnownFlags(xs)
    ensures Alternates(Marks(xs)) <==> LeavesAfterStay(xs)
  {
    if LeavesAfterStay(xs) {
      MarksAlternateInv(xs);
    } else {
      NotAlternating(xs);
    }
  }

  lemma {:induction false} NotAlternating(xs: seq<Sample>)
    requires KnownFlags(xs) && !LeavesAfterStay(xs)
    ensures !Alternates(Marks(xs))
  {
    var rest := xs[..|xs| - 1];
    MarksStep(xs);
    if LeavesAfterStay(rest) {
      MarksAlternateInv(rest);
      var n := |Marks(rest)|;
      assert Marks(xs)[n] == Out && n % 2 == 0;
    } else {
      NotAlternating(rest);
      var i :| 0 <= i < |Marks(rest)| && Marks(rest)[i] != if i % 2 == 0 then In else Out;
      assert Marks(xs)[i] == Marks(rest)[i];
    }
  }

  /** The readings are in order. */
  ghost predicate Timed(xs: seq<Sample>) {
    && (forall i :: 0 <= i < |xs| ==> xs[i].first <= xs[i].second)
    && (forall i :: 0 < i < |xs| ==> xs[i - 1].second <= xs[i].first)
  }

  /** The sum of all slices, as the statistics add them up. */
  function StayTotal(xs: seq<Sample>): int {
    if xs == [] then 0 else StayTotal(xs[..|xs| - 1]) + Run(xs).stay
  }

  predicate Occupied(xs: seq<Sample>, i: int) {
    0 <= i < |xs| && xs[i].flag == 1
  }

  /** The time on the coil: from every picture that shows a vehicle to the next one. */
  function OccupiedTime(xs: seq<Sample>): int {
    if |xs| <= 1 then 0
    else OccupiedTime(xs[..|xs| - 1]) +
         if Occupied(xs, |xs| - 2) then xs[|xs| - 1].first - xs[|xs| - 2].first else 0
  }

  /** A slice that ends inside an occupancy and has a successor: the successor starts at
      the second reading. */
  predicate Resumed(xs: seq<Sample>, i: int) {
    Occupied(xs, i - 1) && Occupied(xs, i) && i + 1 < |xs|
  }

  /** What falls between the two readings of resumed slices. */
  function Lost(xs: seq<Sample>): int {
    if |xs| <= 1 then 0
    else Lost(xs[..|xs| - 1]) +
         if Resumed(xs, |xs| - 2) then xs[|xs| - 2].second - xs[|xs| - 2].first else 0
  }

  /** A flag 2 out of turn. */
  predicate Stray(xs: seq<Sample>, i: int) {
    0 <= i < |xs| && xs[i].flag == 2 && !Occupied(xs, i - 1)
  }

  /** What stray flags add: the clock itself, for each of them. */
  function Phantom(xs: seq<Sample>): int {
    if xs == [] then 0 else Phantom(xs[..|xs| - 1]) + if Stray(xs, |xs| - 1) then xs[|xs| - 1].first else 0
  }

  lemma {:induction false} InTimeOf(xs: seq<Sample>)
    requires xs != [] && KnownFlags(xs)
    ensures Run(xs).inTime ==
      if !Occupied(xs, |xs| - 1) then 0
      else if Occupied(xs, |xs| - 2) then xs[|xs| - 1].second else xs[|xs| - 1].first
  {
    LastFlag(xs[..|xs| - 1]);
  }

  lemma {:induction false} SliceOf(xs: seq<Sample>)
    requires xs != [] && KnownFlags(xs)
    ensures Run(xs).stay ==
      if Stray(xs, |xs| - 1) then xs[|xs| - 1].first
      else if !Occupied(xs, |xs| - 2) then 0
      else xs[|xs| - 1].first - if Occupied(xs, |xs| - 3) then xs[|xs| - 2].second else xs[|xs| - 2].first
  {
    var rest := xs[..|xs| - 1];
    LastFlag(rest);
    if rest != [] {
      InTimeOf(rest);
    }
  }

  /** The slices telescope, for all flags and all clocks: together they are the time on the
      coil, less what fell between two readings, and more by what stray flags add. */
  lemma {:induction false} SlicesTelescope(xs: seq<Sample>)
    requires KnownFlags(xs)
    ensures StayTotal(xs) + Lost(xs) == OccupiedTime(xs) + Phantom(xs)
  {
    if xs != [] {
      SlicesTelescope(xs[..|xs| - 1]);
      SliceOf(xs);
    }
  }

  /** So the accumulated stay is exactly the time on the coil if and only if what is lost is
      what stray flags add.  Without stray flags that is: the clock did not tick between the
      two readings of any resumed slice. */
  lemma {:induction false} StayIsOccupiedTime(xs: seq<Sample>)
    requires KnownFlags(xs)
    ensures StayTotal(xs) == OccupiedTime(xs) <==> Lost(xs) == Phantom(xs)
    ensures LeavesAfterStay(xs) ==> Phantom(xs) == 0
    ensures LeavesAfterStay(xs) && Timed(xs) ==> StayTotal(xs) <= OccupiedTime(xs)
    ensures LeavesAfterStay(xs) && Timed(xs) ==>
      (StayTotal(xs) == OccupiedTime(xs) <==> forall i :: Resumed(xs, i) ==> xs[i].first == xs[i].second)
  {
    SlicesTelescope(xs);
    if LeavesAfterStay(xs) {
      NoPhantom(xs);
    }
    if Timed(xs) {
      LostIsZero(xs);
    }
  }

  lemma {:induction false} NoPhantom(xs: seq<Sample>)
    requires LeavesAfterStay(xs)
    ensures Phantom(xs) == 0
  {
    if xs != [] {
      NoPhantom(xs[..|xs| - 1]);
    }
  }

  lemma {:induction false} LostIsZero(xs: seq<Sample>)
    requires Timed(xs)
    ensures Lost(xs) >= 0
    ensures Lost(xs) == 0 <==> forall i :: Resumed(xs, i) ==> xs[i].first == xs[i].second
  {
    if |xs| > 1 {
      var rest := xs[..|xs| - 1];
      LostIsZero(rest);
      forall i ensures Resumed(xs, i) <==> Resumed(rest, i) || (i == |xs| - 2 && Occupied(xs, i - 1) && Occupied(xs, i)) {
      }
      if forall i :: Resumed(xs, i) ==> xs[i].first == xs[i].second {
        forall i | Resumed(rest, i) ensures rest[i].first == rest[i].second {
          assert Resumed(xs, i);
        }
      }
    }
  }

  /** One occupancy, whatever came before it: its slices add up to leave time minus enter
      time if and only if the clock did not tick between the two readings of any of them that
      goes on. */
  lemma {:induction false} OccupancyIsExact(xs: seq<Sample>, i: nat, j: nat)
    requires KnownFlags(xs) && i < j < |xs| && forall k :: i <= k < j ==> xs[k].flag == 1
    requires forall k :: i <= k < j ==> xs[k].first <= xs[k].second
    ensures StayTotal(xs[..j + 1]) - StayTotal(xs[..i + 1]) == xs[j].first - xs[i].first
      <==> forall k :: i <= k < j && Occupied(xs, k - 1) ==> xs[k].first == xs[k].second
  {
    SlicesTelescope(xs[..j + 1]);
    SlicesTelescope(xs[..i + 1]);
    OccupiedStretch(xs, i, j);
    LostStretch(xs, i, j);
  }

  lemma {:induction false} LostStretch(xs: seq<Sample>, i: nat, j: nat)
    requires i <= j < |xs| && forall k :: i <= k < j ==> xs[k].flag == 1
    requires forall k :: i <= k < j ==> xs[k].first <= xs[k].second
    ensures Phantom(xs[..j + 1]) == Phantom(xs[..i + 1])
    ensures Lost(xs[..j + 1]) >= Lost(xs[..i + 1])
    ensures Lost(xs[..j + 1]) == Lost(xs[..i + 1])
      <==> forall k :: i <= k < j && Occupied(xs, k - 1) ==> xs[k].first == xs[k].second
    decreases j
  {
    if i < j {
      var m := j - 1;
      LostStretch(xs, i, m);
      assert xs[..j + 1][..j] == xs[..j];
      assert Resumed(xs[..j + 1], m) <==> Occupied(xs, m - 1);
    }
  }

  lemma {:induction false} OccupiedStretch(xs: seq<Sample>, i: nat, j: nat)
    requires i <= j < |xs| && forall k :: i <= k < j ==> xs[k].flag == 1
    ensures OccupiedTime(xs[..j + 1]) - OccupiedTime(xs[..i + 1]) == xs[j].first - xs[i].first
    decreases j
  {
    if i < j {
      OccupiedStretch(xs, i, j - 1);
      assert xs[..j + 1][..j] == xs[..j];
    }
  }

  /** The number of vehicles that have left. */
  function LeaveCount(xs: seq<Sample>): nat {
    if xs == [] then 0 else LeaveCount(xs[..|xs| - 1]) + if Run(xs).outCar then 1 else 0
  }

  /** An input of that kind: a flag 2 out of turn counts a vehicle that never came and takes
      the clock itself for its stay. */
  lemma {:induction false} LeaveWithoutEnter(now: int)
    ensures var xs := [Sample(2, now, now)];
      && Timed(xs) && !LeavesAfterStay(xs)
      && Marks(xs) == [Out] && StayTotal(xs) == now && OccupiedTime(xs) == 0
  {
    var xs := [Sample(2, now, now)];
    assert xs[..0] == [];
    assert Run(xs) == Step(CLEARED, xs[0]);
  }
}
