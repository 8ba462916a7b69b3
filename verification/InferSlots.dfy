/** The rotating inference requests of `ObjectWrapper` (zen_rtsp/ObjectWrapper.py): each call
    of `Detect` starts one request and waits for the one started longest ago.  A frame stands
    for the network's answer to it. */
module InferSlots {
  import opened Modular

  datatype Option<T> = None | Some(value: T)

  /** A request: not used yet, started and not waited for, or waited for. */
  datatype Slot<T> = Unused | Started(frame: T) | Collected(frame: T)

  /** `clash` records that a request was started again before it was waited for. */
  datatype State<T> = State(cur: int, prev: int, slots: seq<Slot<T>>, clash: bool)

  predicate Shaped<T>(s: State<T>, n: nat) {
    |s.slots| == n && 0 <= s.cur < n && s.prev < n
  }

  /** `__init__` */
  function Init<T>(n: nat): (s: State<T>)
    requires n >= 1
    ensures Shaped(s, n)
  {
    State(0, 1 - n, Unuseds(n), false)
  }

  function Unuseds<T>(n: nat): (r: seq<Slot<T>>)
    ensures |r| == n && forall i :: 0 <= i < n ==> r[i].Unused?
  {
    if n == 0 then [] else Unuseds(n - 1) + [Unused]
  }

  /** Starting the current request. */
  function Start<T>(s: State<T>, n: nat, frame: T): (r: State<T>)
    requires Shaped(s, n)
    ensures Shaped(r, n)
  {
    s.(slots := s.slots[s.cur := Started(frame)], clash := s.clash || s.slots[s.cur].Started?)
  }

  /** The answer of the request that is waited for, if the pipe is full. */
  function Answer<T>(s: State<T>, n: nat): Option<T>
    requires Shaped(s, n)
  {
    if s.prev < 0 || s.slots[s.prev].Unused? then None else Some(s.slots[s.prev].frame)
  }

  function Collect<T>(s: State<T>, n: nat): (r: State<T>)
    requires Shaped(s, n)
    ensures Shaped(r, n)
  {
    if s.prev < 0 || s.slots[s.prev].Unused? then s
    else s.(slots := s.slots[s.prev := Collected(s.slots[s.prev].frame)])
  }

  /** One call of `Detect`. */
  function Step<T>(s: State<T>, n: nat, frame: T): (r: State<T>)
    requires Shaped(s, n)
    ensures Shaped(r, n)
  {
    var t := Collect(Start(s, n, frame), n);
    t.(cur := Next(t.cur, n), prev := Next(t.prev, n))
  }

  class Wrapper<T(0)> {
    const n: nat
    var cur: int
    var prev: int
    const slots: array<Slot<T>>
    ghost var clash: bool

    ghost predicate Valid()
      reads this, slots
    {
      n >= 1 && Shaped(View(), n)
    }

    ghost function View(): State<T>
      reads this, slots
    {
      State(cur, prev, slots[..], clash)
    }

    constructor (requests: nat)
      requires requests >= 1
      ensures Valid() && n == requests && View() == Init(n) && fresh(slots)
    {
      n := requests;
      cur, prev, clash := 0, 1 - requests, false;
      slots := new Slot<T>[requests](_ => Unused);
    }

    method Detect(frame: T) returns (answer: Option<T>)
      requires Valid()
      modifies this, slots
      ensures Valid() && View() == Step(old(View()), n, frame)
      ensures answer == Answer(Start(old(View()), n, frame), n)
    {
      clash := clash || slots[cur].Started?;
      slots[cur] := Started(frame);
      answer := None;
      if prev >= 0 && !slots[prev].Unused? {
        answer := Some(slots[prev].frame);
        slots[prev] := Collected(slots[prev].frame);
      }
      cur := cur + 1;
      if cur >= n {
        cur := 0;
      }
      prev := prev + 1;
      if prev >= n {
        prev := 0;
      }
    }
  }

  // ---------------------------------------------------------------- runs

  function Run<T>(n: nat, frames: seq<T>): (s: State<T>)
    requires n >= 1
    ensures Shaped(s, n)
  {
    if frames == [] then Init(n) else Step(Run(n, frames[..|frames| - 1]), n, frames[|frames| - 1])
  }

  /** What the calls returned. */
  function Answers<T>(n: nat, frames: seq<T>): (r: seq<Option<T>>)
    requires n >= 1
    ensures |r| == |frames|
  {
    if frames == [] then []
    else
      var m := |frames| - 1;
      Answers(n, frames[..m]) + [Answer(Start(Run(n, frames[..m]), n, frames[m]), n)]
  }

  /** Where the run stands after `k` calls: the last n-1 frames are under way, each in its own
      request, and the request to be started next is free. */
  ghost predicate Inv<T>(s: State<T>, n: nat, frames: seq<T>)
    requires n >= 1 && Shaped(s, n)
  {
    var k := |frames|;
    && !s.clash
    && s.cur == k % n
    && s.prev == (if k < n - 1 then k - (n - 1) else (k + 1) % n)
    && !s.slots[s.cur].Started?
    && (forall i :: k <= i < n ==> s.slots[i].Unused?)
    && forall j :: 0 <= j < k && k - n < j ==> InSlot(s, n, frames, j)
  }

  ghost predicate InSlot<T>(s: State<T>, n: nat, frames: seq<T>, j: nat)
    requires n >= 1 && Shaped(s, n) && j < |frames|
  {
    s.slots[j % n] == Started(frames[j])
  }

  lemma {:induction false} ModBack(k: nat, n: nat)
    requires n >= 1
    ensures (k + n) % n == k % n
  {
    var q := k / n;
    assert k == q * n + k % n;
    assert (q + 1) * n == q * n + n;
    ModIs(k + n, n, q + 1, k % n);
  }

  /** Fewer than n apart, and not the same: different requests. */
  lemma {:induction false} ModDiffers(j: nat, k: nat, n: nat)
    requires n >= 1 && j < k < j + n
    ensures j % n != k % n
  {
    if j % n == k % n {
      var a, b := j / n, k / n;
      assert (b - a) * n == k - j;
      NoMultiple(b - a, n, k - j);
      assert false;
    }
  }

  lemma {:induction false} StartFills<T>(s: State<T>, n: nat, frames: seq<T>, frame: T)
    requires n >= 1 && Shaped(s, n) && Inv(s, n, frames)
    ensures var t := Start(s, n, frame);
      !t.clash && forall j :: 0 <= j <= |frames| && |frames| - n < j ==> InSlot(t, n, frames + [frame], j)
  {
    var k := |frames|;
    var t := Start(s, n, frame);
    forall j | 0 <= j <= k && k - n < j ensures InSlot(t, n, frames + [frame], j) {
      if j < k {
        assert InSlot(s, n, frames, j);
        ModDiffers(j, k, n);
      }
    }
  }

  /** The one that is waited for is the oldest under way. */
  lemma {:induction false} AnswersOldest<T>(s: State<T>, n: nat, frames: seq<T>, frame: T)
    requires n >= 1 && Shaped(s, n) && Inv(s, n, frames)
    ensures var t := Start(s, n, frame);
      if |frames| < n - 1 then s.prev < 0
      else s.prev == (|frames| - (n - 1)) % n && t.slots[s.prev] == Started((frames + [frame])[|frames| - (n - 1)])
  {
    var k := |frames|;
    if k >= n - 1 {
      StartFills(s, n, frames, frame);
      ModBack(k - (n - 1), n);
      assert InSlot(Start(s, n, frame), n, frames + [frame], k - (n - 1));
    }
  }

  lemma {:induction false} StepKeepsInv<T>(s: State<T>, n: nat, frames: seq<T>, frame: T)
    requires n >= 1 && Shaped(s, n) && Inv(s, n, frames)
    ensures Inv(Step(s, n, frame), n, frames + [frame])
  {
    var k, t, v, all := |frames|, Start(s, n, frame), Step(s, n, frame), frames + [frame];
    StartFills(s, n, frames, frame);
    AnswersOldest(s, n, frames, frame);
    ModNext(k, n);
    ModNext(k + 1, n);
    SmallMod(k, n);
    SmallMod(k + 1, n);
    ModBack(0, n);
    forall j | 0 <= j < k + 1 && k + 1 - n < j ensures InSlot(v, n, all, j) {
      assert InSlot(t, n, all, j);
      if k >= n - 1 {
        ModDiffers(k - (n - 1), j, n);
      }
    }
  }

  lemma {:induction false} SmallMod(k: nat, n: nat)
    requires n >= 1
    ensures k < n ==> k % n == k
  {
    if k < n {
      ModIs(k, n, 0, k);
    }
  }

  /** Every run, with any number of requests. */
  lemma {:induction false} RunKeepsInv<T>(n: nat, frames: seq<T>)
    requires n >= 1
    ensures Inv(Run(n, frames), n, frames)
  {
    if frames == [] {
      SmallMod(0, n);
      SmallMod(1, n);
      if n == 1 {
        ModIs(1, 1, 1, 0);
      }
    } else {
      var m := |frames| - 1;
      RunKeepsInv(n, frames[..m]);
      StepKeepsInv(Run(n, frames[..m]), n, frames[..m], frames[m]);
      assert frames[..m] + [frames[m]] == frames;
    }
  }

  /** No request is ever started again before it was waited for. */
  lemma {:induction false} NeverClashes<T>(n: nat, frames: seq<T>)
    requires n >= 1
    ensures !Run(n, frames).clash && !Run(n, frames).slots[Run(n, frames).cur].Started?
  {
    RunKeepsInv(n, frames);
  }

  lemma {:induction false} LastAnswer<T>(n: nat, frames: seq<T>, frame: T)
    requires n >= 1
    ensures Answer(Start(Run(n, frames), n, frame), n) ==
      if |frames| < n - 1 then None else Some((frames + [frame])[|frames| - (n - 1)])
  {
    RunKeepsInv(n, frames);
    AnswersOldest(Run(n, frames), n, frames, frame);
  }

  /** Call `k` returns the answer to the frame of call k-n+1, and nothing before there is
      such a frame. */
  lemma {:induction false} AnswersInTurn<T>(n: nat, frames: seq<T>, k: nat)
    requires n >= 1 && k < |frames|
    ensures Answers(n, frames)[k] == if k < n - 1 then None else Some(frames[k - (n - 1)])
  {
    var m := |frames| - 1;
    if k < m {
      AnswersInTurn(n, frames[..m], k);
    } else {
      LastAnswer(n, frames[..m], frames[m]);
      assert frames[..m] + [frames[m]] == frames;
    }
  }

  /** Frames still under way after a run are the last n-1, so the answers lose none: a run
      that goes on answers all of them. */
  lemma {:induction false} EveryFrameIsAnswered<T>(n: nat, frames: seq<T>, more: seq<T>)
    requires n >= 1 && |more| == n - 1
    ensures forall i :: 0 <= i < |frames| ==> Answers(n, frames + more)[i + (n - 1)] == Some(frames[i])
  {
    forall i | 0 <= i < |frames| ensures Answers(n, frames + more)[i + (n - 1)] == Some(frames[i]) {
      AnswersInTurn(n, frames + more, i + (n - 1));
    }
  }
}
