/** Who receives the real-time data of which camera (zen_rtsp/client_net.c): one subscriber
    list per camera, changed by the start and shutdown commands of the clients. */
module Subscribers {
  import opened ClientList

  const CAM_MAX := 100

  datatype Command =
    | Start(index: nat, fd: int, ip: string)
    | Shutdown(index: nat, fd: int, ip: string)

  function ClientOf(c: Command): Client {
    Client(c.index, c.fd, c.ip)
  }

  // ---------------------------------------------------------------- specification

  /** Seek, then correct the camera or add. */
  function Subscribe(s: seq<Client>, c: Client): seq<Client> {
    var i := FirstMatch(s, c);
    if i < |s| then s[i := s[i].(camera := c.camera)] else s + [c]
  }

  /** Seek, then delete under the cursor. */
  function Remove(s: seq<Client>, c: Client): seq<Client> {
    var i := FirstMatch(s, c);
    if i < |s| then s[..i] + s[i + 1..] else s
  }

  /** The first list with a match, or the number of lists. */
  function FirstHolder(all: seq<seq<Client>>, c: Client): (j: nat)
    ensures j <= |all|
    ensures j < |all| ==> FirstMatch(all[j], c) < |all[j]|
    ensures forall k :: 0 <= k < j ==> FirstMatch(all[k], c) == |all[k]|
  {
    if all == [] || FirstMatch(all[0], c) < |all[0]| then 0 else 1 + FirstHolder(all[1..], c)
  }

  /** The effect of one command; a camera number out of range is refused.  Shutting camera 0
      down means "wherever I am subscribed", and stops at the first list. */
  function Step(all: seq<seq<Client>>, cmd: Command): (r: seq<seq<Client>>)
    requires |all| == CAM_MAX
    ensures |r| == CAM_MAX
  {
    var c := ClientOf(cmd);
    if cmd.index >= CAM_MAX then all
    else if cmd.Start? then all[cmd.index := Subscribe(all[cmd.index], c)]
    else if cmd.index > 0 then all[cmd.index := Remove(all[cmd.index], c)]
    else
      var j := FirstHolder(all, c);
      if j < CAM_MAX then all[j := Remove(all[j], c)] else all
  }

  function Run(cmds: seq<Command>): (r: seq<seq<Client>>)
    ensures |r| == CAM_MAX
  {
    if cmds == [] then seq(CAM_MAX, _ => []) else Step(Run(cmds[..|cmds| - 1]), cmds[|cmds| - 1])
  }

  // ---------------------------------------------------------------- properties

  ghost predicate Distinct(s: seq<Client>) {
    forall i, j :: 0 <= i < j < |s| ==> s[i].fd != s[j].fd
  }

  ghost predicate Holds(s: seq<Client>, fd: int) {
    exists i :: 0 <= i < |s| && s[i].fd == fd
  }

  ghost predicate Sound(all: seq<seq<Client>>) {
    forall k :: 0 <= k < |all| ==> SoundList(all[k], k)
  }

  lemma {:induction false} MatchIsFd(s: seq<Client>, c: Client)
    ensures FirstMatch(s, c) < |s| <==> Holds(s, c.fd)
    ensures FirstMatch(s, c) < |s| ==> s[FirstMatch(s, c)].fd == c.fd
  {
  }

  lemma {:induction false} SubscribeLaw(s: seq<Client>, c: Client)
    requires Distinct(s)
    ensures Distinct(Subscribe(s, c))
    ensures forall fd :: Holds(Subscribe(s, c), fd) <==> Holds(s, fd) || fd == c.fd
  {
    MatchIsFd(s, c);
    var r := Subscribe(s, c);
    forall fd ensures Holds(r, fd) <==> Holds(s, fd) || fd == c.fd {
      if Holds(s, fd) {
        var i :| 0 <= i < |s| && s[i].fd == fd;
        assert r[i].fd == fd;
      }
      assert FirstMatch(s, c) == |s| ==> r[|s|].fd == c.fd;
    }
  }

  /** What the entries are: a socket that is there keeps its place and address and takes the
      camera; a new one comes to the end as it is. */
  lemma {:induction false} SubscribedEntries(s: seq<Client>, c: Client)
    requires Distinct(s)
    ensures |Subscribe(s, c)| == if Holds(s, c.fd) then |s| else |s| + 1
    ensures forall i :: 0 <= i < |s| ==> Subscribe(s, c)[i] == if s[i].fd == c.fd then Client(c.camera, c.fd, s[i].ip) else s[i]
    ensures !Holds(s, c.fd) ==> Subscribe(s, c)[|s|] == c
  {
    MatchIsFd(s, c);
  }

  /** A removal takes the entry of its socket and leaves the others as they are. */
  lemma {:induction false} RemovedEntries(s: seq<Client>, c: Client)
    requires Distinct(s)
    ensures forall x :: x in Remove(s, c) <==> x in s && x.fd != c.fd
  {
    MatchIsFd(s, c);
    var i, r := FirstMatch(s, c), Remove(s, c);
    if i < |s| {
      forall x | x in s && x.fd != c.fd ensures x in r {
        var k :| 0 <= k < |s| && s[k] == x;
        assert r[if k < i then k else k - 1] == x;
      }
    }
  }

  lemma {:induction false} RemoveLaw(s: seq<Client>, c: Client)
    requires Distinct(s)
    ensures Distinct(Remove(s, c))
    ensures forall fd :: Holds(Remove(s, c), fd) <==> Holds(s, fd) && fd != c.fd
  {
    MatchIsFd(s, c);
    var r, i := Remove(s, c), FirstMatch(s, c);
    assert forall k :: 0 <= k < |r| ==> r[k] == if k < i then s[k] else s[k + 1];
    forall fd ensures Holds(r, fd) <==> Holds(s, fd) && fd != c.fd {
      RemoveLawFor(s, c, fd);
    }
  }

  lemma {:induction false} RemoveLawFor(s: seq<Client>, c: Client, fd: int)
    requires Distinct(s)
    ensures Holds(Remove(s, c), fd) <==> Holds(s, fd) && fd != c.fd
  {
    MatchIsFd(s, c);
    var i := FirstMatch(s, c);
    if i < |s| {
      WithoutOne(s, i, fd);
    }
  }

  /** Without element `i`: the other sockets. */
  lemma {:induction false} WithoutOne(s: seq<Client>, i: nat, fd: int)
    requires Distinct(s) && i < |s|
    ensures Holds(s[..i] + s[i + 1..], fd) <==> Holds(s, fd) && fd != s[i].fd
  {
    var r := s[..i] + s[i + 1..];
    if Holds(s, fd) && fd != s[i].fd {
      var k :| 0 <= k < |s| && s[k].fd == fd;
      assert r[if k < i then k else k - 1].fd == fd;
    }
    if Holds(r, fd) {
      var k :| 0 <= k < |r| && r[k].fd == fd;
      assert s[if k < i then k else k + 1].fd == fd;
    }
  }

  ghost predicate SoundList(s: seq<Client>, camera: nat) {
    Distinct(s) && forall i :: 0 <= i < |s| ==> s[i].camera == camera
  }

  lemma {:induction false} CommandKeepsSoundList(s: seq<Client>, camera: nat, c: Client)
    requires SoundList(s, camera)
    ensures c.camera == camera ==> SoundList(Subscribe(s, c), camera)
    ensures SoundList(Remove(s, c), camera)
  {
    SubscribeLaw(s, c);
    RemoveLaw(s, c);
  }

  lemma {:induction false} StepKeepsSound(all: seq<seq<Client>>, cmd: Command)
    requires |all| == CAM_MAX && Sound(all)
    ensures Sound(Step(all, cmd))
  {
    forall k | 0 <= k < CAM_MAX
      ensures k == cmd.index ==> SoundList(Subscribe(all[k], ClientOf(cmd)), k)
      ensures SoundList(Remove(all[k], ClientOf(cmd)), k)
    {
      CommandKeepsSoundList(all[k], k, ClientOf(cmd));
    }
  }

  /** In every run of commands no camera's list ever holds a socket twice, and every entry
      names the camera whose list it is in. */
  lemma {:induction false} NeverTwice(cmds: seq<Command>)
    ensures Sound(Run(cmds))
  {
    if cmds != [] {
      NeverTwice(cmds[..|cmds| - 1]);
      StepKeepsSound(Run(cmds[..|cmds| - 1]), cmds[|cmds| - 1]);
    }
  }

  lemma {:induction false} StartLaw(all: seq<seq<Client>>, cmd: Command, k: nat, fd: int)
    requires |all| == CAM_MAX && Sound(all) && k < CAM_MAX && cmd.Start? && cmd.index < CAM_MAX
    ensures Holds(Step(all, cmd)[k], fd) <==> Holds(all[k], fd) || (k == cmd.index && fd == cmd.fd)
  {
    assert SoundList(all[k], k);
    SubscribeLaw(all[k], ClientOf(cmd));
  }

  lemma {:induction false} ShutdownOneLaw(all: seq<seq<Client>>, cmd: Command, k: nat, fd: int)
    requires |all| == CAM_MAX && Sound(all) && k < CAM_MAX && cmd.Shutdown? && 0 < cmd.index < CAM_MAX
    ensures Holds(Step(all, cmd)[k], fd) <==> Holds(all[k], fd) && !(k == cmd.index && fd == cmd.fd)
  {
    assert SoundList(all[k], k);
    RemoveLaw(all[k], ClientOf(cmd));
  }

  lemma {:induction false} ShutdownFirstLaw(all: seq<seq<Client>>, cmd: Command, k: nat, fd: int)
    requires |all| == CAM_MAX && Sound(all) && k < CAM_MAX && cmd.Shutdown? && cmd.index == 0
    ensures Holds(Step(all, cmd)[k], fd) <==>
      Holds(all[k], fd) && !(fd == cmd.fd && forall j :: 0 <= j < k ==> !Holds(all[j], fd))
  {
    var c := ClientOf(cmd);
    assert SoundList(all[k], k);
    RemoveLaw(all[k], c);
    forall j | 0 <= j < CAM_MAX
      ensures FirstMatch(all[j], c) < |all[j]| <==> Holds(all[j], c.fd)
    {
      MatchIsFd(all[j], c);
    }
  }

  /** Who is subscribed after a command, exactly. */
  lemma {:induction false} StepLaw(all: seq<seq<Client>>, cmd: Command, k: nat, fd: int)
    requires |all| == CAM_MAX && Sound(all) && k < CAM_MAX
    ensures Holds(Step(all, cmd)[k], fd) <==>
      if cmd.index >= CAM_MAX then Holds(all[k], fd)
      else if cmd.Start? then Holds(all[k], fd) || (k == cmd.index && fd == cmd.fd)
      else if cmd.index > 0 then Holds(all[k], fd) && !(k == cmd.index && fd == cmd.fd)
      else Holds(all[k], fd) && !(fd == cmd.fd && forall j :: 0 <= j < k ==> !Holds(all[j], fd))
  {
    if cmd.index < CAM_MAX {
      if cmd.Start? {
        StartLaw(all, cmd, k, fd);
      } else if cmd.index > 0 {
        ShutdownOneLaw(all, cmd, k, fd);
      } else {
        ShutdownFirstLaw(all, cmd, k, fd);
      }
    }
  }

  ghost predicate InOneListAtMost(all: seq<seq<Client>>, fd: int) {
    forall i, j :: 0 <= i < j < |all| ==> !(Holds(all[i], fd) && Holds(all[j], fd))
  }

  /** A shutdown of camera 0 removes the client everywhere exactly when it was subscribed to
      no more than one camera. */
  lemma {:induction false} ShutdownIsComplete(all: seq<seq<Client>>, fd: int, ip: string)
    requires |all| == CAM_MAX && Sound(all)
    ensures (forall k :: 0 <= k < CAM_MAX ==> !Holds(Step(all, Shutdown(0, fd, ip))[k], fd)) <==> InOneListAtMost(all, fd)
  {
    var r := Step(all, Shutdown(0, fd, ip));
    forall k | 0 <= k < CAM_MAX
      ensures Holds(r[k], fd) <==> Holds(all[k], fd) && exists j :: 0 <= j < k && Holds(all[j], fd)
    {
      StepLaw(all, Shutdown(0, fd, ip), k, fd);
    }
  }

  /** A client that is in two lists: it stays in the second. */
  lemma {:induction false} ShutdownOfTwo(fd: int, ip: string)
    ensures Holds(Run([Start(1, fd, ip), Start(2, fd, ip), Shutdown(0, fd, ip)])[2], fd)
  {
    var cmds := [Start(1, fd, ip), Start(2, fd, ip), Shutdown(0, fd, ip)];
    assert cmds[..2] == [Start(1, fd, ip), Start(2, fd, ip)] && cmds[..2][..1] == [Start(1, fd, ip)];
    var one, two := Run(cmds[..2][..1]), Run(cmds[..2]);
    NeverTwice(cmds[..2][..1][..0]);
    NeverTwice(cmds[..2][..1]);
    NeverTwice(cmds[..2]);
    StepLaw(Run(cmds[..2][..1][..0]), Start(1, fd, ip), 1, fd);
    StepLaw(one, Start(2, fd, ip), 1, fd);
    StepLaw(one, Start(2, fd, ip), 2, fd);
    StepLaw(two, Shutdown(0, fd, ip), 2, fd);
  }

  // ---------------------------------------------------------------- the lists in the heap

  method SubscribeOne(list: List, c: Client)
    requires list.Valid()
    modifies list, list.nodes
    ensures list.Valid() && list.contents == Subscribe(old(list.contents), c)
    ensures forall n :: n in list.nodes ==> n in old(list.nodes) || fresh(n)
  {
    var ret := list.Seek(c);
    if ret >= 0 {
      ghost var i := FirstMatch(list.contents, c);
      if ret != 1 {
        list.Overwrite(list.cur, list.cur.data.(camera := c.camera), i);
      }
    } else {
      list.AllocTail();
      list.Overwrite(list.tail, c, |list.nodes| - 1);
    }
  }

  /** The cursor stands where a seek for `c` leaves it. */
  ghost predicate OnMatch(list: List, c: Client)
    requires |list.nodes| == |list.contents|
    reads list
  {
    var i := FirstMatch(list.contents, c);
    list.cur == if i < |list.nodes| then list.nodes[i] else null
  }

  method RemoveOne(list: List, c: Client) returns (ret: int)
    requires list.Valid() && OnMatch(list, c)
    modifies list, list.nodes
    ensures list.Valid() && list.contents == Remove(old(list.contents), c)
    ensures ret == if FirstMatch(old(list.contents), c) < |old(list.contents)| then 0 else 1
    ensures forall n :: n in list.nodes ==> n in old(list.nodes)
  {
    ret := list.DelCur(FirstMatch(list.contents, c));
  }

  class Registry {
    const lists: seq<List>

    ghost function Nodes(): set<Node>
      reads lists
    {
      set i, n | 0 <= i < |lists| && n in lists[i].nodes :: n
    }

    ghost predicate Separate()
      reads lists
    {
      && |lists| == CAM_MAX
      && (forall i, j :: 0 <= i < j < CAM_MAX ==> lists[i] != lists[j])
      && (forall i, j, n :: 0 <= i < CAM_MAX && 0 <= j < CAM_MAX && n in lists[i].nodes && n in lists[j].nodes ==> i == j)
    }

    /** The lists are well formed, share no node, and contain what `all` says. */
    ghost predicate Shows(all: seq<seq<Client>>)
      reads lists, Nodes()
    {
      && Separate() && |all| == CAM_MAX
      && forall i :: 0 <= i < CAM_MAX ==>
           && lists[i].contents == all[i]
           && (assert forall n :: n in lists[i].nodes ==> n in Nodes(); lists[i].Valid())
    }

    constructor ()
      ensures Shows(Run([]))
    {
      var all: seq<List> := [];
      while |all| < CAM_MAX
        invariant |all| <= CAM_MAX && fresh(all)
        invariant forall i, j :: 0 <= i < j < |all| ==> all[i] != all[j]
        invariant forall i :: 0 <= i < |all| ==> all[i].Valid() && all[i].nodes == [] && all[i].contents == []
      {
        var list := new List();
        all := all + [list];
      }
      lists := all;
    }

    /** Subscribe on one list; the others share no node with it and stay well formed. */
    method SubscribeHere(index: nat, c: Client, ghost all: seq<seq<Client>>)
      requires Shows(all) && index < CAM_MAX
      modifies lists[index], lists[index].nodes
      ensures lists[index].Valid() && lists[index].contents == Subscribe(all[index], c)
      ensures forall n :: n in lists[index].nodes ==> n in old(lists[index].nodes) || fresh(n)
      ensures forall j :: 0 <= j < CAM_MAX && j != index ==> lists[j].nodes == old(lists[j].nodes) && lists[j].Valid()
      ensures forall j :: 0 <= j < CAM_MAX && j != index ==> lists[j].contents == all[j]
    {
      var list := lists[index];
      SubscribeOne(list, c);
      forall j | 0 <= j < CAM_MAX && j != index
        ensures lists[j].nodes == old(lists[j].nodes) && lists[j].Valid()
      {
        assert old(lists[j].Valid());
        var nodes := lists[j].nodes;
        assert forall i :: 0 <= i < |nodes| ==> nodes[i] in nodes && nodes[i] !in old(list.nodes);
        assert forall i :: 0 <= i < |nodes| ==> unchanged(nodes[i]);
      }
    }

    method SubscribeAt(index: nat, c: Client, ghost all: seq<seq<Client>>)
      requires Shows(all) && index < CAM_MAX
      modifies lists[index], lists[index].nodes
      ensures Shows(all[index := Subscribe(all[index], c)])
    {
      SubscribeHere(index, c, all);
    }

    /** The same for a removal. */
    method DelHere(index: nat, c: Client, ghost all: seq<seq<Client>>) returns (ret: int)
      requires Shows(all) && index < CAM_MAX && |lists[index].nodes| == |lists[index].contents| && OnMatch(lists[index], c)
      modifies lists[index], lists[index].nodes
      ensures lists[index].Valid() && lists[index].contents == Remove(all[index], c)
      ensures forall n :: n in lists[index].nodes ==> n in old(lists[index].nodes)
      ensures forall j :: 0 <= j < CAM_MAX && j != index ==> lists[j].nodes == old(lists[j].nodes) && lists[j].Valid()
      ensures forall j :: 0 <= j < CAM_MAX && j != index ==> lists[j].contents == all[j]
      ensures ret == if FirstMatch(all[index], c) < |all[index]| then 0 else 1
    {
      var list := lists[index];
      ret := RemoveOne(list, c);
      forall j | 0 <= j < CAM_MAX && j != index
        ensures lists[j].nodes == old(lists[j].nodes) && lists[j].Valid()
      {
        assert old(lists[j].Valid());
        var nodes := lists[j].nodes;
        assert forall i :: 0 <= i < |nodes| ==> nodes[i] in nodes && nodes[i] !in old(list.nodes);
        assert forall i :: 0 <= i < |nodes| ==> unchanged(nodes[i]);
      }
    }

    /** Delete under the cursor of one list, after a seek for `c`. */
    method DelAt(index: nat, c: Client, ghost all: seq<seq<Client>>) returns (ret: int)
      requires Shows(all) && index < CAM_MAX && |lists[index].nodes| == |lists[index].contents| && OnMatch(lists[index], c)
      modifies lists[index], lists[index].nodes
      ensures Shows(all[index := Remove(all[index], c)])
      ensures ret == if FirstMatch(all[index], c) < |all[index]| then 0 else 1
    {
      ret := DelHere(index, c, all);
    }

    /** The STARTREALDATA branch of `handle_buffer`. */
    method StartRealData(index: nat, fd: int, ip: string, ghost all: seq<seq<Client>>)
      requires Shows(all) && index < CAM_MAX
      modifies lists[index], lists[index].nodes
      ensures Shows(Step(all, Start(index, fd, ip)))
    {
      SubscribeAt(index, Client(index, fd, ip), all);
    }

    /** `del_client`, which the SHUTDOWN branch calls. */
    method ShutDown(index: nat, fd: int, ip: string, ghost all: seq<seq<Client>>) returns (ret: int)
      requires Shows(all) && index < CAM_MAX
      modifies lists, Nodes()
      ensures Shows(Step(all, Shutdown(index, fd, ip)))
    {
      var c := Client(index, fd, ip);
      if index > 0 {
        var found := SeekAt(index, c, all);
        assert forall n :: n in lists[index].nodes ==> n in Nodes();
        ret := DelAt(index, c, all);
      } else {
        ret := DelFirst(c, all);
      }
    }

    method SeekAt(index: nat, c: Client, ghost all: seq<seq<Client>>) returns (found: int)
      requires Shows(all) && index < CAM_MAX
      modifies lists[index]
      ensures Shows(all) && Nodes() == old(Nodes())
      ensures lists[index].nodes == old(lists[index].nodes)
      ensures |lists[index].nodes| == |lists[index].contents| && OnMatch(lists[index], c)
      ensures found >= 0 <==> FirstMatch(all[index], c) < |all[index]|
    {
      found := lists[index].Seek(c);
    }

    /** Look through the lists from camera 0 on and delete from the first that has `c`. */
    method DelFirst(c: Client, ghost all: seq<seq<Client>>) returns (ret: int)
      requires Shows(all)
      modifies lists, Nodes()
      ensures var j := FirstHolder(all, c); Shows(if j < CAM_MAX then all[j := Remove(all[j], c)] else all)
    {
      ret := -1;
      var i := FindHolder(c, all);
      if i < CAM_MAX {
        assert forall n :: n in lists[i].nodes ==> n in Nodes();
        ret := DelAt(i, c, all);
      }
    }

    method FindHolder(c: Client, ghost all: seq<seq<Client>>) returns (i: nat)
      requires Shows(all)
      modifies lists
      ensures Shows(all) && Nodes() == old(Nodes()) && i == FirstHolder(all, c)
      ensures i < CAM_MAX ==> |lists[i].nodes| == |lists[i].contents| && OnMatch(lists[i], c)
    {
      i := 0;
      while i < CAM_MAX
        invariant 0 <= i <= CAM_MAX && Shows(all) && Nodes() == old(Nodes())
        invariant forall j :: 0 <= j < i ==> FirstMatch(all[j], c) == |all[j]|
      {
        var found := SeekAt(i, c, all);
        if found >= 0 {
          break;
        }
        i := i + 1;
      }
      FirstHolderIs(all, c, i);
    }
  }

  lemma {:induction false} FirstHolderIs(all: seq<seq<Client>>, c: Client, j: nat)
    requires j <= |all| && (j < |all| ==> FirstMatch(all[j], c) < |all[j]|)
    requires forall k :: 0 <= k < j ==> FirstMatch(all[k], c) == |all[k]|
    ensures FirstHolder(all, c) == j
  {
  }
}
