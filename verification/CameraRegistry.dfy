/** The table of configured cameras (zen_rtsp/client_net.c): who is registered, how many
    there are, and the scans that stop once that many have been met. */
module CameraRegistry {

  const CAM_MAX := 100
  const CAMERA_RUN_MAX := 50

  /** The messages that reach a camera's entry. */
  datatype Message = AlgInfo | CameraDelete | EventInfo

  /** What `handle_change` decided. */
  datatype Flag = NothingSaved | CameraOpened | CameraReset | CameraDeleted

  /** A message with what it meets: `busy` when the camera is in the middle of a command or of
      being opened, `algOpen` when its detector is still up. */
  datatype Command = Command(message: Message, index: nat, busy: bool, algOpen: bool)

  /** `camNum` is kept in an unsigned char. */
  datatype Table = Table(exist: seq<bool>, camNum: nat)

  predicate Shaped(t: Table) {
    |t.exist| == CAM_MAX && t.camNum < 256
  }

  /** `handle_change`, for the three messages about a camera. */
  function Decide(t: Table, c: Command): Flag
    requires Shaped(t) && c.index < CAM_MAX
  {
    if c.busy then NothingSaved
    else
      match c.message
      case AlgInfo =>
        if t.exist[c.index] || c.algOpen then CameraReset
        else if t.camNum >= CAMERA_RUN_MAX then NothingSaved
        else CameraOpened
      case CameraDelete => CameraDeleted
      case EventInfo => CameraReset
  }

  /** `sync_obj`, on what the registry keeps. */
  function Sync(t: Table, m: Message, index: nat): (r: Table)
    requires Shaped(t) && index < CAM_MAX
    ensures Shaped(r)
  {
    match m
    case AlgInfo => Table(t.exist[index := true], if t.exist[index] then t.camNum else (t.camNum + 1) % 256)
    case CameraDelete => Table(t.exist[index := false], if t.exist[index] then (t.camNum + 255) % 256 else t.camNum)
    case EventInfo => t
  }

  /** The SET path of `handle_buffer`; an index out of range is turned away at its top. */
  function Step(t: Table, c: Command): (r: Table)
    requires Shaped(t)
    ensures Shaped(r)
  {
    if c.index >= CAM_MAX || Decide(t, c) == NothingSaved then t else Sync(t, c.message, c.index)
  }

  function Run(t: Table, cs: seq<Command>): (r: Table)
    requires Shaped(t)
    ensures Shaped(r)
  {
    if cs == [] then t else Step(Run(t, cs[..|cs| - 1]), cs[|cs| - 1])
  }

  /** The registered cameras, as a scan of the whole table meets them. */
  function Existing(exist: seq<bool>): seq<nat> {
    if exist == [] then []
    else
      var m := |exist| - 1;
      Existing(exist[..m]) + if exist[m] then [m] else []
  }

  class Registry {
    const exist: array<bool>
    var camNum: nat

    ghost predicate Valid()
      reads this, exist
    {
      Shaped(View())
    }

    ghost function View(): Table
      reads this, exist
    {
      Table(exist[..], camNum)
    }

    constructor ()
      ensures Valid() && fresh(exist) && camNum == 0
      ensures forall i :: 0 <= i < CAM_MAX ==> !exist[i]
    {
      exist := new bool[CAM_MAX](_ => false);
      camNum := 0;
    }

    method HandleChange(c: Command) returns (flag: Flag)
      requires Valid() && c.index < CAM_MAX
      ensures flag == Decide(View(), c)
    {
      if c.busy {
        return NothingSaved;
      }
      match c.message
      case AlgInfo =>
        if !exist[c.index] && !c.algOpen {
          flag := CameraOpened;
          if camNum >= CAMERA_RUN_MAX {
            flag := NothingSaved;
          }
        } else {
          flag := CameraReset;
        }
      case CameraDelete =>
        flag := CameraDeleted;
      case EventInfo =>
        flag := CameraReset;
    }

    method SyncObject(m: Message, index: nat)
      requires Valid() && index < CAM_MAX
      modifies this, exist
      ensures Valid() && View() == Sync(old(View()), m, index)
    {
      match m
      case AlgInfo =>
        if !exist[index] {
          camNum := (camNum + 1) % 256;
        }
        exist[index] := true;
      case CameraDelete =>
        if exist[index] {
          camNum := (camNum + 255) % 256;
        }
        exist[index] := false;
      case EventInfo =>
    }

    method HandleSet(c: Command) returns (flag: Flag)
      requires Valid()
      modifies this, exist
      ensures Valid() && View() == Step(old(View()), c)
      ensures flag == if c.index < CAM_MAX then Decide(old(View()), c) else NothingSaved
    {
      if c.index >= CAM_MAX {
        return NothingSaved;
      }
      flag := HandleChange(c);
      if flag != NothingSaved {
        SyncObject(c.message, c.index);
      }
    }

    /** The loop every service uses: it stops as soon as `limit` cameras were met.  The
        reports stop at `camNum`, starting the cameras stops at CAMERA_RUN_MAX too. */
    method Scan(limit: nat) returns (visited: seq<nat>)
      requires Valid()
      ensures visited == FirstOf(Existing(exist[..]), limit)
    {
      visited := [];
      var i, j := 0, 0;
      while i < CAM_MAX && j < limit
        invariant 0 <= i <= CAM_MAX && j == |visited| <= limit
        invariant visited == Existing(exist[..i])
      {
        assert exist[..i + 1][..i] == exist[..i];
        if exist[i] {
          visited := visited + [i];
          j := j + 1;
        }
        i := i + 1;
      }
      ghost var all := Existing(exist[..]);
      assert exist[..][..i] == exist[..i];
      ExistingGrows(exist[..], i);
      assert |visited| <= |all| && visited == all[..|visited|];
      if j < limit {
        assert exist[..i] == exist[..];
      }
    }

    /** All reports visit every registered camera, in order. */
    method ScanAll() returns (visited: seq<nat>)
      requires Valid() && Counted(View())
      ensures forall c :: 0 <= c < CAM_MAX ==> (c in visited <==> exist[c])
      ensures forall i, k :: 0 <= i < k < |visited| ==> visited[i] < visited[k] < CAM_MAX
    {
      visited := Scan(camNum);
      EarlyExitIsFull(View());
      ExistingIsAll(exist[..]);
    }

    /** `init_camera`: which cameras are started. */
    method ScanToStart() returns (visited: seq<nat>)
      requires Valid() && Counted(View())
      ensures visited == FirstOf(Existing(exist[..]), CAMERA_RUN_MAX)
    {
      visited := Scan(if camNum < CAMERA_RUN_MAX then camNum else CAMERA_RUN_MAX);
    }
  }

  function FirstOf(s: seq<nat>, n: nat): seq<nat> {
    s[..if n < |s| then n else |s|]
  }

  ghost predicate Counted(t: Table) {
    t.camNum == |Existing(t.exist)|
  }

  lemma {:induction false} ExistingGrows(exist: seq<bool>, i: nat)
    requires i <= |exist|
    ensures |Existing(exist[..i])| <= |Existing(exist)| && Existing(exist)[..|Existing(exist[..i])|] == Existing(exist[..i])
  {
    if i == |exist| {
      assert exist[..i] == exist;
    } else {
      var m := |exist| - 1;
      ExistingGrows(exist[..m], i);
      assert exist[..m][..i] == exist[..i];
    }
  }

  /** The full scan meets each registered camera once, in increasing order. */
  lemma {:induction false} ExistingIsAll(exist: seq<bool>)
    ensures forall c :: 0 <= c < |exist| ==> (c in Existing(exist) <==> exist[c])
    ensures forall i, k :: 0 <= i < k < |Existing(exist)| ==> Existing(exist)[i] < Existing(exist)[k]
    ensures forall i :: 0 <= i < |Existing(exist)| ==> Existing(exist)[i] < |exist|
    ensures |Existing(exist)| <= |exist|
  {
    if exist != [] {
      var m := |exist| - 1;
      ExistingIsAll(exist[..m]);
      assert m !in Existing(exist[..m]);
    }
  }

  lemma {:induction false} ExistingAfter(exist: seq<bool>, c: nat, on: bool)
    requires c < |exist|
    ensures |Existing(exist[c := on])| == |Existing(exist)| - (if exist[c] then 1 else 0) + (if on then 1 else 0)
  {
    var m := |exist| - 1;
    if c < m {
      assert exist[c := on][..m] == exist[..m][c := on];
      ExistingAfter(exist[..m], c, on);
    } else {
      assert exist[c := on][..m] == exist[..m];
    }
  }

  /** The early exit visits exactly what the full scan does just when the count is not too
      small. */
  lemma {:induction false} EarlyExitIsFull(t: Table)
    requires Shaped(t)
    ensures FirstOf(Existing(t.exist), t.camNum) == Existing(t.exist) <==> t.camNum >= |Existing(t.exist)|
  {
    var s := Existing(t.exist);
    assert s[..|s|] == s;
    assert t.camNum < |s| ==> |FirstOf(s, t.camNum)| == t.camNum;
  }

  lemma {:induction false} SyncKeepsCount(t: Table, m: Message, index: nat)
    requires Shaped(t) && Counted(t) && index < CAM_MAX
    ensures Counted(Sync(t, m, index))
  {
    ExistingIsAll(t.exist);
    ExistingIsAll(Sync(t, m, index).exist);
    ExistingAfter(t.exist, index, m.AlgInfo?);
  }

  /** The count is right after every run of messages, and the byte never wraps. */
  lemma {:induction false} CountIsExact(t: Table, cs: seq<Command>)
    requires Shaped(t) && Counted(t)
    ensures Counted(Run(t, cs)) && Run(t, cs).camNum <= CAM_MAX
  {
    ExistingIsAll(Run(t, cs).exist);
    if cs != [] {
      var before, c := Run(t, cs[..|cs| - 1]), cs[|cs| - 1];
      CountIsExact(t, cs[..|cs| - 1]);
      if c.index < CAM_MAX {
        SyncKeepsCount(before, c.message, c.index);
      }
    }
  }

  /** What each answer tells: nothing is saved for a busy camera, and not for a new one beyond
      fifty; opened means newly registered, with no detector up; deleted, no longer registered;
      reset, new settings for one that is registered or still has its detector. */
  lemma {:induction false} AnswersAre(t: Table, c: Command)
    requires Shaped(t) && Counted(t) && c.index < 100
    ensures var r, f, was := Step(t, c), Decide(t, c), t.exist[c.index];
      && (f == NothingSaved <==> c.busy || (c.message == AlgInfo && !was && !c.algOpen && t.camNum >= 50))
      && (f == CameraDeleted <==> c.message == CameraDelete && !c.busy)
      && (f == CameraOpened <==> c.message == AlgInfo && !c.busy && !was && !c.algOpen && t.camNum < 50)
      && (f == NothingSaved ==> r == t)
      && (f == CameraDeleted ==> !r.exist[c.index])
      && (f == CameraOpened ==> r.exist[c.index] && r.camNum == t.camNum + 1 <= 50)
      && (f == CameraReset ==> if c.message == EventInfo then r == t else c.message == AlgInfo && r.exist[c.index] && (was || c.algOpen))
      && forall k :: 0 <= k < 100 && k != c.index ==> r.exist[k] == t.exist[k]
  {
    ExistingIsAll(t.exist);
  }

  /** The message changes whether its camera is registered. */
  predicate Decides(t: Table, c: Command, i: nat)
    requires Shaped(t)
  {
    c.index == i < CAM_MAX && !c.message.EventInfo? && Decide(t, c) != NothingSaved
  }

  /** After a run a camera is registered just when the last such message to it was one with its
      settings, or there was none and it was before. */
  ghost predicate Registered(t: Table, cs: seq<Command>, i: nat)
    requires Shaped(t) && i < CAM_MAX
  {
    if cs == [] then t.exist[i]
    else
      var rest, c := cs[..|cs| - 1], cs[|cs| - 1];
      if Decides(Run(t, rest), c, i) then c.message.AlgInfo? else Registered(t, rest, i)
  }

  lemma {:induction false} RegisteredIsLast(t: Table, cs: seq<Command>, i: nat)
    requires Shaped(t) && i < CAM_MAX
    ensures Run(t, cs).exist[i] <==> Registered(t, cs, i)
  {
    if cs != [] {
      RegisteredIsLast(t, cs[..|cs| - 1], i);
    }
  }

  /** A full table is told to take a camera whose entry was deleted while its detector is
      still up. */
  predicate Exceeds(t: Table, c: Command)
    requires Shaped(t)
  {
    && t.camNum == CAMERA_RUN_MAX
    && c.index < CAM_MAX && c.message.AlgInfo? && !c.busy && !t.exist[c.index] && c.algOpen
  }

  /** Only such a message exceeds the limit. */
  lemma {:induction false} OverLimitStep(t: Table, c: Command)
    requires Shaped(t) && Counted(t) && t.camNum <= CAMERA_RUN_MAX
    ensures Step(t, c).camNum > CAMERA_RUN_MAX <==> Exceeds(t, c)
  {
    ExistingIsAll(t.exist);
  }

  ghost predicate NeverExceeds(t: Table, cs: seq<Command>)
    requires Shaped(t)
  {
    forall n :: 0 <= n < |cs| ==> !Exceeds(Run(t, cs[..n]), cs[n])
  }

  ghost predicate WithinLimit(t: Table, cs: seq<Command>)
    requires Shaped(t)
  {
    forall n :: 0 <= n <= |cs| ==> Run(t, cs[..n]).camNum <= CAMERA_RUN_MAX
  }

  /** The limit holds all along a run just when no such message comes. */
  lemma {:induction false} LimitHolds(t: Table, cs: seq<Command>)
    requires Shaped(t) && Counted(t) && t.camNum <= CAMERA_RUN_MAX
    ensures WithinLimit(t, cs) <==> NeverExceeds(t, cs)
  {
    if NeverExceeds(t, cs) {
      forall n | 0 <= n <= |cs| ensures Run(t, cs[..n]).camNum <= CAMERA_RUN_MAX {
        StaysWithin(t, cs, n);
      }
    } else {
      var n :| 0 <= n < |cs| && Exceeds(Run(t, cs[..n]), cs[n]);
      RunSnoc(t, cs, n);
      CountIsExact(t, cs[..n]);
      OverLimitStep(Run(t, cs[..n]), cs[n]);
    }
  }

  lemma {:induction false} StaysWithin(t: Table, cs: seq<Command>, n: nat)
    requires Shaped(t) && Counted(t) && t.camNum <= CAMERA_RUN_MAX && NeverExceeds(t, cs) && n <= |cs|
    ensures Run(t, cs[..n]).camNum <= CAMERA_RUN_MAX
  {
    if n > 0 {
      var m := n - 1;
      StaysWithin(t, cs, m);
      RunSnoc(t, cs, m);
      CountIsExact(t, cs[..m]);
      OverLimitStep(Run(t, cs[..m]), cs[m]);
    }
  }

  lemma {:induction false} RunSnoc(t: Table, cs: seq<Command>, n: nat)
    requires Shaped(t) && n < |cs|
    ensures Run(t, cs[..n + 1]) == Step(Run(t, cs[..n]), cs[n])
  {
    assert cs[..n + 1][..n] == cs[..n];
  }

  /** A full table takes a camera that still runs, and no other. */
  lemma {:induction false} LimitIsNotHard(t: Table, index: nat)
    requires Shaped(t) && Counted(t) && t.camNum == CAMERA_RUN_MAX && index < CAM_MAX && !t.exist[index]
    ensures Run(t, [Command(AlgInfo, index, false, true)]).camNum == CAMERA_RUN_MAX + 1
    ensures Run(t, [Command(AlgInfo, index, false, false)]) == t
  {
    assert Run(t, []) == t;
  }
}
