/** First-fit assignment of cameras to GPU slots (zen_rtsp/camera_service.c).  Opening a
    camera takes a place on the first GPU that has one left, closing it gives the place
    back. */
module GpuSlots {

  const CAM_MAX := 100
  const GPU_INDEX_MAX := 50
  const GPU_ITEM_MAX := 2

  /** How many places of each GPU are taken, and which GPU each camera was given last. */
  datatype Pool = Pool(taken: seq<nat>, gpuOf: seq<nat>)

  function Repeat<T>(x: T, n: nat): (s: seq<T>)
    ensures |s| == n && forall k :: 0 <= k < n ==> s[k] == x
  {
    if n == 0 then [] else Repeat(x, n - 1) + [x]
  }

  predicate Shaped(p: Pool) {
    |p.taken| == GPU_INDEX_MAX && |p.gpuOf| == CAM_MAX && forall c :: 0 <= c < CAM_MAX ==> p.gpuOf[c] < GPU_INDEX_MAX
  }

  /** The first GPU with a place left, or the number of GPUs. */
  function FirstFit(taken: seq<nat>): (g: nat)
    ensures g <= |taken|
    ensures g < |taken| ==> taken[g] < GPU_ITEM_MAX
    ensures forall k :: 0 <= k < g ==> taken[k] >= GPU_ITEM_MAX
  {
    if taken == [] || taken[0] < GPU_ITEM_MAX then 0 else 1 + FirstFit(taken[1..])
  }

  function Open(p: Pool, cam: nat): Pool
    requires Shaped(p) && cam < CAM_MAX
  {
    var g := FirstFit(p.taken);
    if g < GPU_INDEX_MAX then Pool(p.taken[g := p.taken[g] + 1], p.gpuOf[cam := g]) else p
  }

  function Close(p: Pool, cam: nat): Pool
    requires Shaped(p) && cam < CAM_MAX
  {
    var g := p.gpuOf[cam];
    if p.taken[g] > 0 then p.(taken := p.taken[g := p.taken[g] - 1]) else p
  }

  class Gpus {
    const taken: array<nat>
    const gpuOf: array<nat>

    ghost predicate Valid()
      reads taken, gpuOf
    {
      taken != gpuOf && Shaped(View())
    }

    ghost function View(): Pool
      reads taken, gpuOf
    {
      Pool(taken[..], gpuOf[..])
    }

    constructor ()
      ensures Valid() && View() == Idle()
    {
      taken := new nat[GPU_INDEX_MAX](_ => 0);
      gpuOf := new nat[CAM_MAX](_ => 0);
    }

    /** The locked part of `camera_open`. */
    method OpenCamera(cam: nat) returns (ret: int)
      requires Valid() && cam < CAM_MAX
      modifies taken, gpuOf
      ensures Valid() && View() == Open(old(View()), cam)
      ensures ret == if FirstFit(old(taken[..])) < GPU_INDEX_MAX then FirstFit(old(taken[..])) else -1
    {
      ret := -1;
      var i := 0;
      while i < GPU_INDEX_MAX
        invariant 0 <= i <= GPU_INDEX_MAX && ret == -1
        invariant forall k :: 0 <= k < i ==> taken[k] >= GPU_ITEM_MAX
        invariant View() == old(View())
      {
        if taken[i] < GPU_ITEM_MAX {
          FirstFitIs(taken[..], i);
          taken[i] := taken[i] + 1;
          gpuOf[cam] := i;
          ret := i;
          return;
        }
        i := i + 1;
      }
      FirstFitIs(taken[..], GPU_INDEX_MAX);
    }

    /** The locked part of `camera_close`. */
    method CloseCamera(cam: nat)
      requires Valid() && cam < CAM_MAX
      modifies taken
      ensures Valid() && View() == Close(old(View()), cam)
    {
      if taken[gpuOf[cam]] > 0 {
        taken[gpuOf[cam]] := taken[gpuOf[cam]] - 1;
      }
    }
  }

  lemma {:induction false} FirstFitIs(taken: seq<nat>, g: nat)
    requires g <= |taken| && (g < |taken| ==> taken[g] < GPU_ITEM_MAX)
    requires forall k :: 0 <= k < g ==> taken[k] >= GPU_ITEM_MAX
    ensures FirstFit(taken) == g
  {
  }

  // ---------------------------------------------------------------- counting

  /** How many open cameras were given GPU `g`. */
  function Load(open: seq<bool>, gpuOf: seq<nat>, g: nat): nat
    requires |open| == |gpuOf|
  {
    if open == [] then 0
    else
      var n := |open| - 1;
      Load(open[..n], gpuOf[..n], g) + if open[n] && gpuOf[n] == g then 1 else 0
  }

  function OpenCount(open: seq<bool>): nat {
    if open == [] then 0 else OpenCount(open[..|open| - 1]) + if open[|open| - 1] then 1 else 0
  }

  /** The cameras on the first `n` GPUs. */
  function LoadUpTo(open: seq<bool>, gpuOf: seq<nat>, n: nat): nat
    requires |open| == |gpuOf|
  {
    if n == 0 then 0 else LoadUpTo(open, gpuOf, n - 1) + Load(open, gpuOf, n - 1)
  }

  lemma {:induction false} LoadUpToSnoc(open: seq<bool>, gpuOf: seq<nat>, n: nat)
    requires |open| == |gpuOf| > 0
    ensures var m := |open| - 1;
      LoadUpTo(open, gpuOf, n) == LoadUpTo(open[..m], gpuOf[..m], n) + if open[m] && gpuOf[m] < n then 1 else 0
  {
    if n > 0 {
      LoadUpToSnoc(open, gpuOf, n - 1);
    }
  }

  /** Every open camera is on exactly one GPU. */
  lemma {:induction false} LoadsAddUp(open: seq<bool>, gpuOf: seq<nat>)
    requires |open| == |gpuOf| && forall c :: 0 <= c < |gpuOf| ==> gpuOf[c] < GPU_INDEX_MAX
    ensures LoadUpTo(open, gpuOf, GPU_INDEX_MAX) == OpenCount(open)
  {
    if open == [] {
      LoadOfNone(GPU_INDEX_MAX);
      assert gpuOf == [];
    } else {
      var m := |open| - 1;
      LoadsAddUp(open[..m], gpuOf[..m]);
      LoadUpToSnoc(open, gpuOf, GPU_INDEX_MAX);
    }
  }

  lemma {:induction false} LoadOfNone(n: nat)
    ensures LoadUpTo([], [], n) == 0
  {
    if n > 0 {
      LoadOfNone(n - 1);
    }
  }

  lemma {:induction false} FullLoads(open: seq<bool>, gpuOf: seq<nat>, n: nat)
    requires |open| == |gpuOf| && forall g :: 0 <= g < n ==> Load(open, gpuOf, g) >= GPU_ITEM_MAX
    ensures LoadUpTo(open, gpuOf, n) >= n * GPU_ITEM_MAX
  {
    if n > 0 {
      FullLoads(open, gpuOf, n - 1);
    }
  }

  lemma {:induction false} OneClosed(open: seq<bool>, cam: nat)
    requires cam < |open| && !open[cam]
    ensures OpenCount(open) < |open|
  {
    if cam < |open| - 1 {
      OneClosed(open[..|open| - 1], cam);
    } else {
      AtMostAll(open[..|open| - 1]);
    }
  }

  lemma {:induction false} AtMostAll(open: seq<bool>)
    ensures OpenCount(open) <= |open|
  {
    if open != [] {
      AtMostAll(open[..|open| - 1]);
    }
  }

  lemma {:induction false} LoadAfter(open: seq<bool>, gpuOf: seq<nat>, cam: nat, on: bool, at: nat, g: nat)
    requires |open| == |gpuOf| && cam < |open|
    ensures Load(open[cam := on], gpuOf[cam := at], g) ==
      Load(open, gpuOf, g) - (if open[cam] && gpuOf[cam] == g then 1 else 0) + (if on && at == g then 1 else 0)
  {
    var m := |open| - 1;
    if cam < m {
      assert open[cam := on][..m] == open[..m][cam := on] && gpuOf[cam := at][..m] == gpuOf[..m][cam := at];
      LoadAfter(open[..m], gpuOf[..m], cam, on, at, g);
    } else {
      assert open[cam := on][..m] == open[..m] && gpuOf[cam := at][..m] == gpuOf[..m];
    }
  }

  // ---------------------------------------------------------------- runs

  datatype Command = OpenCam(cam: nat) | CloseCam(cam: nat)

  function Idle(): Pool {
    Pool(Repeat(0, GPU_INDEX_MAX), Repeat(0, CAM_MAX))
  }

  /** Every number of taken places is the number of open cameras on that GPU, and no GPU
      holds more than it can. */
  ghost predicate Inv(p: Pool, open: seq<bool>) {
    Shaped(p) && |open| == CAM_MAX && forall g :: 0 <= g < GPU_INDEX_MAX ==> ExactAt(p, open, g)
  }

  ghost predicate ExactAt(p: Pool, open: seq<bool>, g: nat)
    requires Shaped(p) && |open| == CAM_MAX && g < GPU_INDEX_MAX
  {
    p.taken[g] == Load(open, p.gpuOf, g) <= GPU_ITEM_MAX
  }

  /** There are as many places as cameras, so a camera that is not open always finds one. */
  lemma {:induction false} FirstFitNeverFails(p: Pool, open: seq<bool>, cam: nat)
    requires Inv(p, open) && cam < CAM_MAX && !open[cam]
    ensures FirstFit(p.taken) < GPU_INDEX_MAX
  {
    if FirstFit(p.taken) == GPU_INDEX_MAX {
      forall g | 0 <= g < GPU_INDEX_MAX ensures Load(open, p.gpuOf, g) >= GPU_ITEM_MAX {
        assert p.taken[g] >= GPU_ITEM_MAX && ExactAt(p, open, g);
      }
      FullLoads(open, p.gpuOf, GPU_INDEX_MAX);
      LoadsAddUp(open, p.gpuOf);
      OneClosed(open, cam);
      assert false;
    }
  }

  /** Opening keeps the counters exact just when the camera was not open, or nothing was
      left to give. */
  lemma {:induction false} OpenKeepsInv(p: Pool, open: seq<bool>, cam: nat)
    requires Inv(p, open) && cam < CAM_MAX
    ensures Inv(Open(p, cam), open[cam := true]) <==> !open[cam] || FirstFit(p.taken) == GPU_INDEX_MAX
  {
    var at, q, on := FirstFit(p.taken), Open(p, cam), open[cam := true];
    if !open[cam] {
      FirstFitNeverFails(p, open, cam);
      forall g | 0 <= g < GPU_INDEX_MAX ensures ExactAt(q, on, g) {
        assert ExactAt(p, open, g);
        LoadAfter(open, p.gpuOf, cam, true, at, g);
      }
    } else if at < GPU_INDEX_MAX {
      var was := p.gpuOf[cam];
      assert ExactAt(p, open, was);
      LoadAfter(open, p.gpuOf, cam, true, at, was);
      assert !ExactAt(q, on, was);
    } else {
      assert on == open;
    }
  }

  /** Closing keeps them exact just when the camera was open, or nobody is on the GPU it
      was given last. */
  lemma {:induction false} CloseKeepsInv(p: Pool, open: seq<bool>, cam: nat)
    requires Inv(p, open) && cam < CAM_MAX
    ensures Inv(Close(p, cam), open[cam := false]) <==> open[cam] || p.taken[p.gpuOf[cam]] == 0
  {
    var at, q, off := p.gpuOf[cam], Close(p, cam), open[cam := false];
    assert p.gpuOf[cam := at] == p.gpuOf;
    LoadAfter(open, p.gpuOf, cam, false, at, at);
    assert ExactAt(p, open, at);
    if open[cam] {
      forall g | 0 <= g < GPU_INDEX_MAX ensures ExactAt(q, off, g) {
        assert ExactAt(p, open, g);
        LoadAfter(open, p.gpuOf, cam, false, at, g);
      }
    } else if p.taken[at] > 0 {
      assert !ExactAt(q, off, at);
    } else {
      assert off == open;
    }
  }

  /** Which cameras are open after a run, or None if some camera was opened while open or
      closed while closed. */
  datatype Option<T> = None | Some(value: T)

  function OpenAfter(cmds: seq<Command>): (r: Option<seq<bool>>)
    ensures r.Some? ==> |r.value| == CAM_MAX
  {
    if cmds == [] then Some(Repeat(false, CAM_MAX))
    else
      var before, c := OpenAfter(cmds[..|cmds| - 1]), cmds[|cmds| - 1];
      if before.None? || c.cam >= CAM_MAX || before.value[c.cam] == c.OpenCam? then None
      else Some(before.value[c.cam := c.OpenCam?])
  }

  ghost predicate Alternates(cmds: seq<Command>) {
    OpenAfter(cmds).Some?
  }

  function Run(cmds: seq<Command>): (p: Pool)
    ensures Shaped(p)
  {
    if cmds == [] then Idle()
    else
      var before, c := Run(cmds[..|cmds| - 1]), cmds[|cmds| - 1];
      if c.cam >= CAM_MAX then before
      else if c.OpenCam? then Open(before, c.cam) else Close(before, c.cam)
  }

  lemma {:induction false} LoadOfClosed(n: nat, g: nat)
    ensures Load(Repeat(false, n), Repeat(0, n), g) == 0
  {
    if n > 0 {
      var m := n - 1;
      assert Repeat(false, n)[..m] == Repeat(false, m);
      assert Repeat(0, n)[..m] == Repeat(0, m);
      LoadOfClosed(m, g);
    }
  }

  /** In every run in which each camera is opened and closed in turn, the counters are
      exact, within bounds, and no open ever fails. */
  lemma {:induction false} CountersAreExact(cmds: seq<Command>)
    requires Alternates(cmds)
    ensures Inv(Run(cmds), OpenAfter(cmds).value)
    ensures |Run(cmds).taken| == 50 && forall g :: 0 <= g < 50 ==> Run(cmds).taken[g] == Load(OpenAfter(cmds).value, Run(cmds).gpuOf, g) <= 2
  {
    CountersInv(cmds);
    forall g | 0 <= g < 50 ensures Run(cmds).taken[g] == Load(OpenAfter(cmds).value, Run(cmds).gpuOf, g) <= 2 {
      assert ExactAt(Run(cmds), OpenAfter(cmds).value, g);
    }
  }

  lemma {:induction false} CountersInv(cmds: seq<Command>)
    requires Alternates(cmds)
    ensures Inv(Run(cmds), OpenAfter(cmds).value)
  {
    if cmds == [] {
      forall g: nat ensures Load(OpenAfter(cmds).value, Idle().gpuOf, g) == 0 {
        LoadOfClosed(CAM_MAX, g);
      }
    } else {
      var rest, c := cmds[..|cmds| - 1], cmds[|cmds| - 1];
      CountersInv(rest);
      if c.OpenCam? {
        OpenKeepsInv(Run(rest), OpenAfter(rest).value, c.cam);
      } else {
        CloseKeepsInv(Run(rest), OpenAfter(rest).value, c.cam);
      }
    }
  }

  /** Which cameras are open after any run: what the last command to each said. */
  function OpenSet(cmds: seq<Command>): (open: seq<bool>)
    ensures |open| == CAM_MAX
  {
    if cmds == [] then Repeat(false, CAM_MAX)
    else
      var before, c := OpenSet(cmds[..|cmds| - 1]), cmds[|cmds| - 1];
      if c.cam >= CAM_MAX then before else before[c.cam := c.OpenCam?]
  }

  /** The command repeats what holds already, and yet changes a counter. */
  predicate Miscounts(p: Pool, open: seq<bool>, c: Command)
    requires Shaped(p) && |open| == CAM_MAX
  {
    && c.cam < CAM_MAX && open[c.cam] == c.OpenCam?
    && if c.OpenCam? then FirstFit(p.taken) < GPU_INDEX_MAX else p.taken[p.gpuOf[c.cam]] > 0
  }

  /** At the end of a run and at every moment before. */
  ghost predicate AlwaysExact(cmds: seq<Command>) {
    Inv(Run(cmds), OpenSet(cmds)) && (cmds != [] ==> AlwaysExact(cmds[..|cmds| - 1]))
  }

  predicate NeverMiscounts(cmds: seq<Command>) {
    cmds != [] ==>
      var rest := cmds[..|cmds| - 1];
      NeverMiscounts(rest) && !Miscounts(Run(rest), OpenSet(rest), cmds[|cmds| - 1])
  }

  /** For all runs: the counters are exact all along just when no such command comes. */
  lemma {:induction false} ExactUnlessMiscounted(cmds: seq<Command>)
    ensures AlwaysExact(cmds) <==> NeverMiscounts(cmds)
  {
    if cmds == [] {
      ExactAtFirst();
    } else {
      var rest, c := cmds[..|cmds| - 1], cmds[|cmds| - 1];
      ExactUnlessMiscounted(rest);
      if AlwaysExact(rest) && c.cam < CAM_MAX {
        if c.OpenCam? {
          OpenKeepsInv(Run(rest), OpenSet(rest), c.cam);
        } else {
          CloseKeepsInv(Run(rest), OpenSet(rest), c.cam);
        }
      }
    }
  }

  lemma {:induction false} ExactAtFirst()
    ensures Inv(Idle(), Repeat(false, CAM_MAX))
  {
    forall g | 0 <= g < GPU_INDEX_MAX ensures ExactAt(Idle(), Repeat(false, CAM_MAX), g) {
      LoadOfClosed(CAM_MAX, g);
    }
  }

  lemma {:induction false} OpenAlwaysSucceeds(cmds: seq<Command>, cam: nat)
    requires Alternates(cmds + [OpenCam(cam)])
    ensures cam < CAM_MAX && FirstFit(Run(cmds).taken) < GPU_INDEX_MAX
  {
    assert (cmds + [OpenCam(cam)])[..|cmds|] == cmds;
    CountersAreExact(cmds);
    FirstFitNeverFails(Run(cmds), OpenAfter(cmds).value, cam);
  }

  /** Closing a camera that is not open takes the place of another one away. */
  lemma {:induction false} CloseOfClosedMiscounts()
    ensures !Alternates([OpenCam(0), CloseCam(1)])
    ensures var p := Run([OpenCam(0), CloseCam(1)]);
      p.taken[0] == 0 && p.gpuOf[0] == 0
  {
    var cmds := [OpenCam(0), CloseCam(1)];
    assert cmds[..1] == [OpenCam(0)] && cmds[..1][..0] == [];
    assert Run(cmds[..1]) == Open(Idle(), 0);
    assert FirstFit(Idle().taken) == 0;
    assert OpenAfter(cmds[..1]).Some? ==> !OpenAfter(cmds[..1]).value[1];
    assert OpenAfter(cmds).None?;
  }
}
