/** The three-slot ring between the decoder thread and the detector thread of a camera
    (zen_rtsp/camera_service.c).  The writer never waits and may overwrite slots the reader
    has not taken; a loop counter is meant to keep the reader from taking a slot out of
    turn. */
module FrameRing {

  const DATA_SIZE := 3

  datatype Frame = Frame(no: nat, image: int)
  datatype Option<T> = None | Some(value: T)

  datatype Ring = Ring(
    valid: seq<bool>, itemWloop: seq<int>, frames: seq<Frame>,
    iRead: int, iWrite: int, iWloop: int)

  ghost predicate Shaped(r: Ring) {
    && |r.valid| == |r.itemWloop| == |r.frames| == DATA_SIZE
    && 0 <= r.iRead < DATA_SIZE && 0 <= r.iWrite < DATA_SIZE
  }

  // ---------------------------------------------------------------- operations

  function Set(r: Ring, f: Frame): Ring
    requires Shaped(r)
  {
    var next := (r.iWrite + 1) % DATA_SIZE;
    r.(frames := r.frames[r.iWrite := f], itemWloop := r.itemWloop[r.iWrite := r.iWloop],
       valid := r.valid[r.iWrite := true], iWrite := next,
       iWloop := (r.iWloop + if next == 0 then 2 else 1) % 100)
  }

  predicate CanGet(r: Ring)
    requires Shaped(r)
  {
    r.valid[r.iRead] && r.itemWloop[r.iRead] - r.iWloop != 1
  }

  function Get(r: Ring): Ring
    requires Shaped(r)
  {
    if CanGet(r) then r.(valid := r.valid[r.iRead := false], iRead := (r.iRead + 1) % DATA_SIZE) else r
  }

  function Clear(r: Ring): Ring {
    r.(valid := [false, false, false])
  }

  /** What `camera_close` does: clear, then reset the two indices. */
  function Close(r: Ring): Ring {
    Clear(r).(iRead := 0, iWrite := 0)
  }

  class YuvList {
    const valid: array<bool>
    const itemWloop: array<int>
    const frames: array<Frame>
    var iRead: int
    var iWrite: int
    var iWloop: int

    ghost predicate Valid()
      reads this
    {
      && valid.Length == itemWloop.Length == frames.Length == DATA_SIZE
      && 0 <= iRead < DATA_SIZE && 0 <= iWrite < DATA_SIZE
    }

    ghost function View(): Ring
      reads this, valid, itemWloop, frames
    {
      Ring(valid[..], itemWloop[..], frames[..], iRead, iWrite, iWloop)
    }

    constructor ()
      ensures Valid() && View() == START
    {
      valid := new bool[DATA_SIZE](_ => false);
      itemWloop := new int[DATA_SIZE](_ => 0);
      frames := new Frame[DATA_SIZE](_ => Frame(0, 0));
      iRead, iWrite, iWloop := 0, 0, 0;
    }

    method SetItem(f: Frame)
      requires Valid()
      modifies this, valid, itemWloop, frames
      ensures Valid() && View() == Set(old(View()), f)
    {
      var at := iWrite;
      frames[at] := f;
      itemWloop[at] := iWloop;
      valid[at] := true;
      iWrite := (at + 1) % DATA_SIZE;
      if iWrite == 0 {
        iWloop := iWloop + 1;
      }
      iWloop := (iWloop + 1) % 100;
    }

    method GetItem() returns (f: Option<Frame>)
      requires Valid()
      modifies this, valid
      ensures Valid() && View() == Get(old(View()))
      ensures f == if CanGet(old(View())) then Some(old(frames[iRead])) else None
    {
      f := None;
      var at := iRead;
      if valid[at] && itemWloop[at] - iWloop != 1 {
        f := Some(frames[at]);
        valid[at] := false;
        iRead := (at + 1) % DATA_SIZE;
      }
    }

    method ClearItems()
      requires Valid()
      modifies valid
      ensures Valid() && View() == Clear(old(View()))
    {
      var i := 0;
      while i < DATA_SIZE
        invariant 0 <= i <= DATA_SIZE && forall j :: 0 <= j < i ==> !valid[j]
      {
        valid[i] := false;
        i := i + 1;
      }
    }

    method CloseCamera()
      requires Valid()
      modifies this, valid
      ensures Valid() && View() == Close(old(View()))
    {
      ClearItems();
      iRead, iWrite := 0, 0;
    }
  }

  // ---------------------------------------------------------------- runs

  datatype Event = Write(f: Frame) | Read | Wipe | Shut

  const START := Ring([false, false, false], [0, 0, 0], [Frame(0, 0), Frame(0, 0), Frame(0, 0)], 0, 0, 0)

  function Step(r: Ring, e: Event): (r': Ring)
    requires Shaped(r)
    ensures Shaped(r')
  {
    match e
    case Write(f) => Set(r, f)
    case Read => Get(r)
    case Wipe => Clear(r)
    case Shut => Close(r)
  }

  function Run(es: seq<Event>): (r: Ring)
    ensures Shaped(r)
  {
    if es == [] then START else Step(Run(es[..|es| - 1]), es[|es| - 1])
  }

  /** All frames written so far, in order. */
  function Log(es: seq<Event>): seq<Frame> {
    if es == [] then []
    else Log(es[..|es| - 1]) + if es[|es| - 1].Write? then [es[|es| - 1].f] else []
  }

  /** How many writes ago slot `i` was written, if it was since the last reset: 1, 2 or 3. */
  function Age(iWrite: int, i: int): (a: int)
    requires 0 <= iWrite < DATA_SIZE && 0 <= i < DATA_SIZE
    ensures 1 <= a <= 3
  {
    if iWrite > i then iWrite - i else iWrite - i + DATA_SIZE
  }

  /** The place in the log of the frame that slot `i` holds. */
  function Place(n: int, r: Ring, i: int): int
    requires Shaped(r) && 0 <= i < DATA_SIZE
  {
    n - Age(r.iWrite, i)
  }

  /** The places in the log of the frames delivered so far. */
  function Delivered(es: seq<Event>): seq<int> {
    if es == [] then []
    else
      var rest := es[..|es| - 1];
      Delivered(rest) +
        if es[|es| - 1].Read? && CanGet(Run(rest)) then [Place(|Log(rest)|, Run(rest), Run(rest).iRead)] else []
  }

  ghost predicate SlotInv(log: seq<Frame>, r: Ring, i: int)
    requires Shaped(r) && 0 <= i < DATA_SIZE
  {
    && 0 <= Place(|log|, r, i) && r.frames[i] == log[Place(|log|, r, i)]
    && 0 <= r.itemWloop[i] < 100
    && r.iWloop == (r.itemWloop[i] + Age(r.iWrite, i) + if r.iWrite <= i then 1 else 0) % 100
  }

  ghost predicate Inv(log: seq<Frame>, r: Ring) {
    && Shaped(r) && 0 <= r.iWloop < 100
    && forall i :: 0 <= i < DATA_SIZE && r.valid[i] ==> SlotInv(log, r, i)
  }

  lemma {:induction false} WriteKeepsSlot(log: seq<Frame>, r: Ring, f: Frame, i: int)
    requires Inv(log, r) && 0 <= i < DATA_SIZE && Set(r, f).valid[i]
    ensures SlotInv(log + [f], Set(r, f), i)
  {
    if i != r.iWrite {
      assert SlotInv(log, r, i);
      var d := Age(r.iWrite, i) + if r.iWrite <= i then 1 else 0;
      ModAdd(r.itemWloop[i] + d, if r.iWrite == DATA_SIZE - 1 then 2 else 1);
    }
  }

  lemma {:induction false} ModAdd(x: int, k: int)
    ensures (x % 100 + k) % 100 == (x + k) % 100
  {
  }

  lemma {:induction false} StepKeepsInv(log: seq<Frame>, r: Ring, e: Event)
    requires Inv(log, r)
    ensures Inv(log + if e.Write? then [e.f] else [], Step(r, e))
  {
    if e.Write? {
      forall i | 0 <= i < DATA_SIZE && Set(r, e.f).valid[i]
        ensures SlotInv(log + [e.f], Set(r, e.f), i)
      {
        WriteKeepsSlot(log, r, e.f, i);
      }
    } else {
      assert log + [] == log;
    }
  }

  lemma {:induction false} RunInv(es: seq<Event>)
    ensures Inv(Log(es), Run(es))
  {
    if es != [] {
      var rest := es[..|es| - 1];
      RunInv(rest);
      StepKeepsInv(Log(rest), Run(rest), es[|es| - 1]);
    }
  }

  /** The loop counter never keeps the reader from a valid slot. */
  lemma {:induction false} GuardNeverRejects(es: seq<Event>)
    ensures CanGet(Run(es)) <==> Run(es).valid[Run(es).iRead]
  {
    RunInv(es);
    GuardPasses(Log(es), Run(es));
  }

  lemma {:induction false} GuardPasses(log: seq<Frame>, r: Ring)
    requires Inv(log, r)
    ensures CanGet(r) <==> r.valid[r.iRead]
  {
    if r.valid[r.iRead] {
      assert SlotInv(log, r, r.iRead);
      StampsDiffer(r.itemWloop[r.iRead], Age(r.iWrite, r.iRead) + if r.iWrite <= r.iRead then 1 else 0);
    }
  }

  lemma {:induction false} StampsDiffer(item: int, d: int)
    requires 0 <= item < 100 && 0 <= d <= 4
    ensures item - (item + d) % 100 != 1
  {
  }

  /** What a successful read delivers is one of the last three frames written. */
  lemma {:induction false} DeliversRecent(es: seq<Event>)
    requires CanGet(Run(es))
    ensures var r, log := Run(es), Log(es);
      var k := Place(|log|, r, r.iRead);
      0 <= k < |log| && |log| - 3 <= k && r.frames[r.iRead] == log[k]
  {
    RunInv(es);
    assert SlotInv(Log(es), Run(es), Run(es).iRead);
  }

  /** With `n` frames written and those at the places `d` delivered: all different, and none
      of them still valid in a slot. */
  ghost predicate NotYet(n: nat, r: Ring, d: seq<int>)
    requires Shaped(r)
  {
    && (forall j :: 0 <= j < |d| ==> d[j] < n)
    && (forall i, j :: 0 <= i < DATA_SIZE && r.valid[i] && 0 <= j < |d| ==> d[j] != Place(n, r, i))
    && (forall i, j :: 0 <= i < j < |d| ==> d[i] != d[j])
  }

  lemma {:induction false} WriteNotYet(n: nat, r: Ring, d: seq<int>, f: Frame)
    requires Shaped(r) && NotYet(n, r, d)
    ensures NotYet(n + 1, Set(r, f), d)
  {
    forall i, j | 0 <= i < DATA_SIZE && Set(r, f).valid[i] && 0 <= j < |d|
      ensures d[j] != Place(n + 1, Set(r, f), i)
    {
      assert i != r.iWrite ==> r.valid[i] && Place(n + 1, Set(r, f), i) == Place(n, r, i);
    }
  }

  lemma {:induction false} ReadNotYet(n: nat, r: Ring, d: seq<int>)
    requires Shaped(r) && NotYet(n, r, d) && CanGet(r)
    ensures NotYet(n, Get(r), d + [Place(n, r, r.iRead)])
  {
    forall i | 0 <= i < DATA_SIZE && Get(r).valid[i]
      ensures r.valid[i] && Place(n, Get(r), i) == Place(n, r, i) != Place(n, r, r.iRead)
    {
    }
  }

  lemma {:induction false} StepNotYet(n: nat, r: Ring, d: seq<int>, e: Event)
    requires Shaped(r) && NotYet(n, r, d)
    ensures NotYet(if e.Write? then n + 1 else n, Step(r, e),
                   d + if e.Read? && CanGet(r) then [Place(n, r, r.iRead)] else [])
  {
    assert d + [] == d;
    if e.Write? {
      WriteNotYet(n, r, d, e.f);
    } else if e.Read? && CanGet(r) {
      ReadNotYet(n, r, d);
    }
  }

  lemma {:induction false} NotYetInv(es: seq<Event>)
    ensures NotYet(|Log(es)|, Run(es), Delivered(es))
  {
    if es != [] {
      var rest := es[..|es| - 1];
      NotYetInv(rest);
      StepNotYet(|Log(rest)|, Run(rest), Delivered(rest), es[|es| - 1]);
    }
  }

  /** No write is ever delivered twice. */
  lemma {:induction false} DeliversOnce(es: seq<Event>, i: nat, j: nat)
    requires i < j < |Delivered(es)|
    ensures Delivered(es)[i] != Delivered(es)[j]
  {
    NotYetInv(es);
  }

  lemma {:induction false} RunSnoc(es: seq<Event>, e: Event)
    ensures Run(es + [e]) == Step(Run(es), e)
  {
    assert (es + [e])[..|es|] == es;
  }

  /** After three writes in a row the next read succeeds, whatever happened before. */
  lemma {:induction false} ThreeWritesSuffice(es: seq<Event>, a: Frame, b: Frame, c: Frame)
    ensures CanGet(Run(es + [Write(a)] + [Write(b)] + [Write(c)]))
  {
    RunSnoc(es, Write(a));
    RunSnoc(es + [Write(a)], Write(b));
    RunSnoc(es + [Write(a)] + [Write(b)], Write(c));
    GuardNeverRejects(es + [Write(a)] + [Write(b)] + [Write(c)]);
    ThreeWritesFill(Run(es), a, b, c);
  }

  lemma {:induction false} ThreeWritesFill(r: Ring, a: Frame, b: Frame, c: Frame)
    requires Shaped(r)
    ensures forall i :: 0 <= i < DATA_SIZE ==> Set(Set(Set(r, a), b), c).valid[i]
  {
  }

  // ---------------------------------------------------------------- when it is a queue

  /** Frames written and not yet delivered, were this a queue. */
  function Pending(es: seq<Event>): nat {
    if es == [] then 0
    else
      var p := Pending(es[..|es| - 1]);
      match es[|es| - 1]
      case Write(_) => p + 1
      case Read => if p > 0 then p - 1 else 0
      case Wipe => 0
      case Shut => 0
  }

  /** How far wipes have put the reader out of step with the writer. */
  function Skew(es: seq<Event>): (k: nat)
    ensures k < DATA_SIZE
  {
    if es == [] then 0
    else
      var rest := es[..|es| - 1];
      match es[|es| - 1]
      case Write(_) => Skew(rest)
      case Read => Skew(rest)
      case Wipe => (Skew(rest) + Pending(rest)) % DATA_SIZE
      case Shut => 0
  }

  /** No more frames wait than there are slots, and none while the reader is out of step. */
  predicate InStep(pending: nat, skew: nat) {
    pending <= DATA_SIZE && (pending > 0 ==> skew == 0)
  }

  /** At the end of a run and at every moment before. */
  predicate AlwaysInStep(es: seq<Event>) {
    InStep(Pending(es), Skew(es)) && (es != [] ==> AlwaysInStep(es[..|es| - 1]))
  }

  /** The next read is that of a queue: it fails just when nothing waits, and otherwise
      takes the oldest frame waiting. */
  ghost predicate Serves(n: nat, r: Ring, pending: nat)
    requires Shaped(r)
  {
    && (CanGet(r) <==> pending > 0)
    && (pending > 0 ==> Place(n, r, r.iRead) == n - pending)
  }

  /** At the end of a run and at every moment before. */
  ghost predicate IsQueue(es: seq<Event>) {
    Serves(|Log(es)|, Run(es), Pending(es)) && (es != [] ==> IsQueue(es[..|es| - 1]))
  }

  /** The slots of a ring in step: the frames waiting are the last written, and the reader
      stands behind the writer by them and the skew. */
  ghost predicate Lined(r: Ring, pending: nat, skew: nat) {
    && Shaped(r) && skew < DATA_SIZE && InStep(pending, skew)
    && r.iRead == (r.iWrite + 2 * DATA_SIZE - pending - skew) % DATA_SIZE
    && forall i :: 0 <= i < DATA_SIZE ==> (r.valid[i] <==> Age(r.iWrite, i) <= pending)
  }

  lemma {:induction false} LinedServes(n: nat, r: Ring, pending: nat, skew: nat)
    requires Lined(r, pending, skew) && (CanGet(r) <==> r.valid[r.iRead])
    ensures Serves(n, r, pending)
  {
  }

  /** A step from a ring in step either keeps it so, or the next read gives it away. */
  ghost predicate Follows(n: nat, r: Ring, pending: nat, skew: nat) {
    && Shaped(r) && skew < DATA_SIZE
    && if InStep(pending, skew) then Lined(r, pending, skew) else !Serves(n, r, pending)
  }

  lemma {:induction false} LinedWrite(n: nat, r: Ring, pending: nat, skew: nat, f: Frame)
    requires Lined(r, pending, skew) && (CanGet(Set(r, f)) <==> Set(r, f).valid[Set(r, f).iRead])
    ensures Follows(n, Set(r, f), pending + 1, skew)
  {
    var w := Set(r, f);
    assert forall i :: 0 <= i < DATA_SIZE ==> (w.valid[i] <==> i == r.iWrite || r.valid[i]);
    assert Age(w.iWrite, r.iWrite) == 1;
    if pending == DATA_SIZE {
      assert w.iRead == r.iWrite;
    }
  }

  lemma {:induction false} LinedRead(n: nat, r: Ring, pending: nat, skew: nat)
    requires Lined(r, pending, skew) && (CanGet(r) <==> r.valid[r.iRead])
    ensures Follows(n, Get(r), if pending > 0 then pending - 1 else 0, skew)
  {
    assert r.valid[r.iRead] <==> pending > 0;
    if pending > 0 {
      assert Age(r.iWrite, r.iRead) == pending;
    }
  }

  lemma {:induction false} LinedWipe(n: nat, r: Ring, pending: nat, skew: nat)
    requires Lined(r, pending, skew)
    ensures Follows(n, Clear(r), 0, (skew + pending) % DATA_SIZE)
    ensures Follows(n, Close(r), 0, 0)
  {
  }

  lemma {:induction false} FollowsNow(es: seq<Event>)
    requires es != [] ==> Lined(Run(es[..|es| - 1]), Pending(es[..|es| - 1]), Skew(es[..|es| - 1]))
    ensures Follows(|Log(es)|, Run(es), Pending(es), Skew(es))
  {
    GuardNeverRejects(es);
    if es != [] {
      var rest := es[..|es| - 1];
      GuardNeverRejects(rest);
      LinedStep(|Log(es)|, Run(rest), Pending(rest), Skew(rest), es[|es| - 1]);
    }
  }

  lemma {:induction false} QueueInv(es: seq<Event>)
    ensures IsQueue(es) <==> AlwaysInStep(es)
    ensures AlwaysInStep(es) ==> Lined(Run(es), Pending(es), Skew(es))
  {
    if es != [] {
      QueueInv(es[..|es| - 1]);
    }
    if es == [] || AlwaysInStep(es[..|es| - 1]) {
      FollowsNow(es);
      if InStep(Pending(es), Skew(es)) {
        GuardNeverRejects(es);
        LinedServes(|Log(es)|, Run(es), Pending(es), Skew(es));
      }
    }
  }

  lemma {:induction false} LinedStep(n: nat, r: Ring, pending: nat, skew: nat, e: Event)
    requires Lined(r, pending, skew) && (CanGet(r) <==> r.valid[r.iRead])
    requires CanGet(Step(r, e)) <==> Step(r, e).valid[Step(r, e).iRead]
    ensures Follows(n, Step(r, e), if e.Write? then pending + 1 else if e.Read? && pending > 0 then pending - 1 else 0,
                    if e.Wipe? then (skew + pending) % DATA_SIZE else if e.Shut? then 0 else skew)
  {
    match e
    case Write(f) => LinedWrite(n, r, pending, skew, f);
    case Read => LinedRead(n, r, pending, skew);
    case Wipe => LinedWipe(n, r, pending, skew);
    case Shut => LinedWipe(n, r, pending, skew);
  }

  /** The ring is a first-in first-out queue all along a run just when the writer is never
      more than three frames ahead, and nothing is written while wipes have put the reader
      out of step. */
  lemma {:induction false} RefinesQueue(es: seq<Event>)
    ensures IsQueue(es) <==> AlwaysInStep(es)
    ensures AlwaysInStep(es) && Pending(es) > 0 ==>
      Pending(es) <= |Log(es)| && Run(es).frames[Run(es).iRead] == Log(es)[|Log(es)| - Pending(es)]
  {
    QueueInv(es);
    RunInv(es);
    if AlwaysInStep(es) && Pending(es) > 0 {
      var r := Run(es);
      assert Serves(|Log(es)|, r, Pending(es));
      assert SlotInv(Log(es), r, r.iRead);
    }
  }

  ghost predicate Increasing(d: seq<int>, bound: int) {
    && (forall i :: 0 <= i < |d| ==> d[i] < bound)
    && (forall i, j :: 0 <= i < j < |d| ==> d[i] < d[j])
  }

  /** So then the frames come out in the order in which they went in. */
  lemma {:induction false} DeliversInOrder(es: seq<Event>)
    requires AlwaysInStep(es)
    ensures Increasing(Delivered(es), |Log(es)| - Pending(es))
  {
    if es != [] {
      var rest := es[..|es| - 1];
      DeliversInOrder(rest);
      QueueInv(rest);
      assert Serves(|Log(rest)|, Run(rest), Pending(rest));
    }
  }

  // ---------------------------------------------------------------- order alone

  /** The frame delivered last is the newest one written. */
  predicate CaughtUp(es: seq<Event>) {
    Delivered(es) != [] && Delivered(es)[|Delivered(es)| - 1] == |Log(es)| - 1
  }

  /** No read ever succeeds while that is so. */
  predicate WaitsForNews(es: seq<Event>) {
    es != [] ==>
      var rest := es[..|es| - 1];
      WaitsForNews(rest) && !(es[|es| - 1].Read? && CanGet(Run(rest)) && CaughtUp(rest))
  }

  /** After `n` writes, with the one at place `last` delivered last: the reader stands behind
      its slot, or nothing from before it is left. */
  ghost predicate Trails(n: nat, r: Ring, last: int) {
    && Shaped(r) && last < n
    && (r.iRead == (r.iWrite + last - n + 1) % DATA_SIZE || forall i :: 0 <= i < DATA_SIZE && r.valid[i] ==> last < Place(n, r, i))
  }

  lemma {:induction false} TrailsWrite(n: nat, r: Ring, last: int, f: Frame)
    requires Trails(n, r, last)
    ensures Trails(n + 1, Set(r, f), last)
  {
    var w := Set(r, f);
    assert Place(n + 1, w, r.iWrite) == n;
    forall i | 0 <= i < DATA_SIZE && w.valid[i] && i != r.iWrite
      ensures r.valid[i] && Place(n + 1, w, i) == Place(n, r, i)
    {
    }
  }

  /** A read takes an older frame than the one before just when that was the newest. */
  lemma {:induction false} TrailsRead(n: nat, r: Ring, last: int)
    requires Trails(n, r, last) && CanGet(r) && Place(n, r, r.iRead) != last
    ensures last < Place(n, r, r.iRead) <==> last != n - 1
  {
  }

  lemma {:induction false} TrailsStart(n: nat, r: Ring)
    requires Shaped(r) && CanGet(r)
    ensures Place(n, r, r.iRead) < n && Trails(n, Get(r), Place(n, r, r.iRead))
  {
  }

  ghost predicate TrailsLast(n: nat, r: Ring, d: seq<int>) {
    d != [] ==> Trails(n, r, d[|d| - 1])
  }

  lemma {:induction false} TrailsStep(n: nat, r: Ring, d: seq<int>, e: Event)
    requires Shaped(r) && TrailsLast(n, r, d)
    ensures TrailsLast(if e.Write? then n + 1 else n, Step(r, e),
                       d + if e.Read? && CanGet(r) then [Place(n, r, r.iRead)] else [])
  {
    assert d + [] == d;
    if e.Write? {
      if d != [] {
        TrailsWrite(n, r, d[|d| - 1], e.f);
      }
    } else if e.Read? && CanGet(r) {
      TrailsStart(n, r);
    }
  }

  lemma {:induction false} TrailsInv(es: seq<Event>)
    ensures TrailsLast(|Log(es)|, Run(es), Delivered(es))
  {
    if es != [] {
      var rest := es[..|es| - 1];
      TrailsInv(rest);
      TrailsStep(|Log(rest)|, Run(rest), Delivered(rest), es[|es| - 1]);
    }
  }

  ghost predicate InOrder(d: seq<int>) {
    forall i, j :: 0 <= i < j < |d| ==> d[i] < d[j]
  }

  lemma {:induction false} InOrderSnoc(d: seq<int>, p: int)
    ensures InOrder(d + [p]) <==> InOrder(d) && (d != [] ==> d[|d| - 1] < p)
  {
    if InOrder(d + [p]) {
      forall i, j | 0 <= i < j < |d| ensures d[i] < d[j] {
        assert (d + [p])[i] < (d + [p])[j];
      }
      assert d != [] ==> (d + [p])[|d| - 1] < (d + [p])[|d|];
    }
  }

  /** For all runs, lapped or wiped: frames come out in the order in which they went in just
      when no read ever succeeds while the newest frame has already been delivered. */
  lemma {:induction false} OrderIsExact(es: seq<Event>)
    ensures InOrder(Delivered(es)) <==> WaitsForNews(es)
  {
    if es != [] {
      var rest, e := es[..|es| - 1], es[|es| - 1];
      var n, r, d := |Log(rest)|, Run(rest), Delivered(rest);
      OrderIsExact(rest);
      if e.Read? && CanGet(r) {
        var p := Place(n, r, r.iRead);
        assert Delivered(es) == d + [p];
        InOrderSnoc(d, p);
        if d != [] {
          TrailsInv(rest);
          DeliversOnce(es, |d| - 1, |d|);
          TrailsRead(n, r, d[|d| - 1]);
        }
      } else {
        assert Delivered(es) == d;
      }
    }
  }

  /** Lapped, the ring is no queue: after four writes the last frame comes out first, and then the
      second. */
  lemma {:induction false} LappedReaderGoesBack(a: Frame, b: Frame, c: Frame, d: Frame)
    ensures var r := Set(Set(Set(Set(START, a), b), c), d);
      && CanGet(r) && r.frames[r.iRead] == d
      && CanGet(Get(r)) && Get(r).frames[Get(r).iRead] == b
  {
  }

  /** Nor when it is wiped with a frame waiting: the next frame written is then not the next
      one delivered. */
  lemma {:induction false} WipedReaderSkips(a: Frame, b: Frame, c: Frame, d: Frame)
    ensures var r := Set(Clear(Set(START, a)), b);
      && !CanGet(r)
      && CanGet(Set(Set(r, c), d)) && Set(Set(r, c), d).frames[Set(Set(r, c), d).iRead] == d
  {
  }
}
