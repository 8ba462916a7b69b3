/** The event clip recorder of one camera (zen_rtsp/cam_event.c).  Every processed picture
    goes into a queue of recent pictures and into every open clip; every event in it opens
    a new clip that starts with the recent pictures.  A clip is closed by the first picture
    processed more than five seconds after its event.

    The queue type is not part of this model: it is a plain first-in first-out queue, and
    its conditional delete removes some prefix. */
module EventClips {

  type Picture = int

  datatype Shot = Shot(picture: Picture, ts: nat)
  datatype Clip = Clip(ts: nat, frames: seq<Picture>)

  /** One processed picture: its events, and how many old pictures the conditional delete
      takes out of the recent queue. */
  datatype Input = Input(picture: Picture, ts: nat, events: nat, dropped: nat)

  datatype State = State(stream: seq<Shot>, recent: seq<Shot>, open: seq<Clip>, closed: seq<Clip>)

  const START := State([], [], [], [])

  function Pictures(shots: seq<Shot>): (p: seq<Picture>)
    ensures |p| == |shots|
  {
    seq(|shots|, i requires 0 <= i < |shots| => shots[i].picture)
  }

  /** The test for closing, in the unsigned 64-bit arithmetic of the source. */
  predicate Expired(born: nat, ts: nat) {
    born < (if ts >= 5 then ts - 5 else ts - 5 + 0x1_0000_0000_0000_0000) || born > ts
  }

  function Extend(q: seq<Clip>, p: Picture): (r: seq<Clip>)
    ensures |r| == |q| && forall i :: 0 <= i < |q| ==> r[i] == Clip(q[i].ts, q[i].frames + [p])
  {
    seq(|q|, i requires 0 <= i < |q| => Clip(q[i].ts, q[i].frames + [p]))
  }

  /** How many clips of the queue are to be closed. */
  function ExpiredCount(q: seq<Clip>, ts: nat): (n: nat)
    ensures n <= |q|
  {
    if q == [] then 0
    else ExpiredCount(q[..|q| - 1], ts) + if Expired(q[|q| - 1].ts, ts) then 1 else 0
  }

  /** The clips that should stay open. */
  function Alive(q: seq<Clip>, ts: nat): seq<Clip> {
    if q == [] then []
    else Alive(q[..|q| - 1], ts) + if Expired(q[|q| - 1].ts, ts) then [] else [q[|q| - 1]]
  }

  ghost predicate OldestFirst(q: seq<Clip>, ts: nat) {
    forall i, j :: 0 <= i < j < |q| && Expired(q[j].ts, ts) ==> Expired(q[i].ts, ts)
  }

  /** One pass over the queue takes a clip off the front for each expired clip it meets,
      whichever that is.  That removes the expired clips and keeps the others, in order,
      exactly when every expired clip comes before every other one. */
  lemma {:induction false} PassIsExact(q: seq<Clip>, ts: nat)
    ensures q[ExpiredCount(q, ts)..] == Alive(q, ts) <==> OldestFirst(q, ts)
  {
    if OldestFirst(q, ts) {
      ExpiredComeFirst(q, ts);
    }
    if q[ExpiredCount(q, ts)..] == Alive(q, ts) {
      var k := ExpiredCount(q, ts);
      forall i | k <= i < |q| ensures !Expired(q[i].ts, ts) {
        AliveIsAlive(q, ts);
        assert q[k..][i - k] == q[i];
      }
      ExpiredSplit(q, ts, k);
    }
  }

  lemma {:induction false} AliveIsAlive(q: seq<Clip>, ts: nat)
    ensures forall c :: c in Alive(q, ts) ==> !Expired(c.ts, ts)
  {
    if q != [] {
      AliveIsAlive(q[..|q| - 1], ts);
    }
  }

  lemma {:induction false} ExpiredComeFirst(q: seq<Clip>, ts: nat)
    requires OldestFirst(q, ts)
    ensures forall i :: 0 <= i < |q| ==> (Expired(q[i].ts, ts) <==> i < ExpiredCount(q, ts))
    ensures q[ExpiredCount(q, ts)..] == Alive(q, ts)
  {
    ExpiredAreFirst(q, ts);
    RestIsAlive(q, ts);
  }

  lemma {:induction false} ExpiredAreFirst(q: seq<Clip>, ts: nat)
    requires OldestFirst(q, ts)
    ensures forall i :: 0 <= i < |q| ==> (Expired(q[i].ts, ts) <==> i < ExpiredCount(q, ts))
  {
    if q != [] {
      var rest := q[..|q| - 1];
      ExpiredAreFirst(rest, ts);
      assert forall i :: 0 <= i < |rest| ==> rest[i] == q[i];
      if Expired(q[|q| - 1].ts, ts) {
        AllExpired(rest, ts);
      }
    }
  }

  lemma {:induction false} RestIsAlive(q: seq<Clip>, ts: nat)
    requires OldestFirst(q, ts)
    ensures q[ExpiredCount(q, ts)..] == Alive(q, ts)
  {
    if q != [] {
      var rest, last := q[..|q| - 1], q[|q| - 1];
      RestIsAlive(rest, ts);
      if Expired(last.ts, ts) {
        AllExpired(rest, ts);
      } else {
        SliceSnoc(rest, last, ExpiredCount(rest, ts));
        assert q == rest + [last];
      }
    }
  }

  lemma {:induction false} SliceSnoc(q: seq<Clip>, c: Clip, n: nat)
    requires n <= |q|
    ensures (q + [c])[n..] == q[n..] + [c]
  {
  }

  lemma {:induction false} AllExpired(q: seq<Clip>, ts: nat)
    requires forall i :: 0 <= i < |q| ==> Expired(q[i].ts, ts)
    ensures ExpiredCount(q, ts) == |q| && Alive(q, ts) == []
  {
    if q != [] {
      AllExpired(q[..|q| - 1], ts);
    }
  }

  /** With the first `k` clips holding all `k` expired ones, all of those are expired. */
  lemma {:induction false} ExpiredSplit(q: seq<Clip>, ts: nat, k: nat)
    requires k <= |q| && ExpiredCount(q, ts) >= k
    requires forall i :: k <= i < |q| ==> !Expired(q[i].ts, ts)
    ensures OldestFirst(q, ts)
  {
    if |q| > k {
      var rest := q[..|q| - 1];
      assert q == rest + [q[|q| - 1]];
      ExpiredSplit(rest, ts, k);
    } else {
      ManyExpired(q, ts);
    }
  }

  lemma {:induction false} ManyExpired(q: seq<Clip>, ts: nat)
    requires ExpiredCount(q, ts) == |q|
    ensures forall i :: 0 <= i < |q| ==> Expired(q[i].ts, ts)
  {
    if q != [] {
      ManyExpired(q[..|q| - 1], ts);
    }
  }

  // ---------------------------------------------------------------- one picture

  function Recent(recent: seq<Shot>, x: Input): (r: seq<Shot>)
    ensures r != [] && r[|r| - 1] == Shot(x.picture, x.ts)
  {
    recent[if x.dropped <= |recent| then x.dropped else |recent|..] + [Shot(x.picture, x.ts)]
  }

  function Copies(n: nat, c: Clip): (r: seq<Clip>)
    ensures |r| == n && forall i :: 0 <= i < n ==> r[i] == c
  {
    seq(n, i => c)
  }

  function Step(s: State, x: Input): State {
    var written := Extend(s.open, x.picture);
    var n := ExpiredCount(written, x.ts);
    State(s.stream + [Shot(x.picture, x.ts)], Recent(s.recent, x),
          written[n..] + Copies(x.events, Clip(x.ts, Pictures(Recent(s.recent, x)))),
          s.closed + written[..n])
  }

  function Run(xs: seq<Input>): State {
    if xs == [] then START else Step(Run(xs[..|xs| - 1]), xs[|xs| - 1])
  }

  ghost predicate NeverBack(xs: seq<Input>) {
    forall i, j :: 0 <= i <= j < |xs| ==> xs[i].ts <= xs[j].ts
  }

  function Now(s: State): nat {
    if s.stream == [] then 0 else s.stream[|s.stream| - 1].ts
  }

  ghost predicate InOrder(q: seq<Clip>, ts: nat) {
    && (forall i, j :: 0 <= i < j < |q| ==> q[i].ts <= q[j].ts)
    && (forall i :: 0 <= i < |q| ==> q[i].ts <= ts)
  }

  /** `part` is the run of pictures that ends with the whole. */
  ghost predicate EndsWith(whole: seq<Picture>, part: seq<Picture>) {
    |part| <= |whole| && part == whole[|whole| - |part|..]
  }

  predicate LiesAt(whole: seq<Picture>, part: seq<Picture>, a: int) {
    0 <= a <= |whole| - |part| && part == whole[a..a + |part|]
  }

  ghost predicate Contiguous(whole: seq<Picture>, part: seq<Picture>) {
    exists a :: LiesAt(whole, part, a)
  }

  ghost predicate Inv(s: State) {
    && EndsWith(Pictures(s.stream), Pictures(s.recent))
    && (forall i :: 0 <= i < |s.open| ==> EndsWith(Pictures(s.stream), s.open[i].frames))
    && (forall i :: 0 <= i < |s.closed| ==> Contiguous(Pictures(s.stream), s.closed[i].frames))
    && InOrder(s.open, Now(s))
    && (forall i :: 0 <= i < |s.open| ==> !Expired(s.open[i].ts, Now(s)) || Now(s) < 5)
  }

  lemma {:induction false} EndsWithGrows(whole: seq<Picture>, part: seq<Picture>, p: Picture)
    requires EndsWith(whole, part)
    ensures EndsWith(whole + [p], part + [p])
  {
  }

  lemma {:induction false} ContiguousGrows(whole: seq<Picture>, part: seq<Picture>, p: Picture)
    requires Contiguous(whole, part)
    ensures Contiguous(whole + [p], part)
  {
    var a :| LiesAt(whole, part, a);
    assert LiesAt(whole + [p], part, a);
  }

  lemma {:induction false} EndsWithIsContiguous(whole: seq<Picture>, part: seq<Picture>)
    requires EndsWith(whole, part)
    ensures Contiguous(whole, part)
  {
    assert LiesAt(whole, part, |whole| - |part|);
  }

  lemma {:induction false} PicturesSnoc(shots: seq<Shot>, shot: Shot)
    ensures Pictures(shots + [shot]) == Pictures(shots) + [shot.picture]
  {
  }

  lemma {:induction false} InOrderIsOldestFirst(q: seq<Clip>, ts: nat)
    requires InOrder(q, ts)
    ensures OldestFirst(q, ts)
  {
  }

  lemma {:induction false} RecentEndsStream(s: State, x: Input)
    requires EndsWith(Pictures(s.stream), Pictures(s.recent))
    ensures EndsWith(Pictures(s.stream + [Shot(x.picture, x.ts)]), Pictures(Recent(s.recent, x)))
  {
    var d := if x.dropped <= |s.recent| then x.dropped else |s.recent|;
    PicturesSnoc(s.stream, Shot(x.picture, x.ts));
    PicturesSnoc(s.recent[d..], Shot(x.picture, x.ts));
    assert Pictures(s.recent[d..]) == Pictures(s.recent)[d..];
    EndsWithGrows(Pictures(s.stream), Pictures(s.recent[d..]), x.picture);
  }

  /** The pass of one step, when the queue is in order. */
  lemma {:induction false} PassInOrder(q: seq<Clip>, x: Input)
    requires forall i, j :: 0 <= i < j < |q| ==> q[i].ts <= q[j].ts
    requires forall i :: 0 <= i < |q| ==> q[i].ts <= x.ts
    ensures var n := ExpiredCount(Extend(q, x.picture), x.ts);
      && n <= |q|
      && (forall i :: 0 <= i < |q| ==> (Expired(q[i].ts, x.ts) <==> i < n))
      && Extend(q, x.picture)[n..] == Alive(Extend(q, x.picture), x.ts)
  {
    var written := Extend(q, x.picture);
    InOrderIsOldestFirst(written, x.ts);
    ExpiredComeFirst(written, x.ts);
  }

  lemma {:induction false} OpenEndsStream(s: State, x: Input)
    requires Inv(s)
    ensures forall i :: 0 <= i < |s.open| ==>
      EndsWith(Pictures(s.stream + [Shot(x.picture, x.ts)]), Extend(s.open, x.picture)[i].frames)
  {
    PicturesSnoc(s.stream, Shot(x.picture, x.ts));
    forall i | 0 <= i < |s.open|
      ensures EndsWith(Pictures(s.stream + [Shot(x.picture, x.ts)]), Extend(s.open, x.picture)[i].frames)
    {
      EndsWithGrows(Pictures(s.stream), s.open[i].frames, x.picture);
    }
  }

  lemma {:induction false} ClosedStayContiguous(s: State, x: Input)
    requires Inv(s)
    ensures forall i :: 0 <= i < |Step(s, x).closed| ==> Contiguous(Pictures(Step(s, x).stream), Step(s, x).closed[i].frames)
  {
    var all, written := Pictures(Step(s, x).stream), Extend(s.open, x.picture);
    PicturesSnoc(s.stream, Shot(x.picture, x.ts));
    OpenEndsStream(s, x);
    forall i | 0 <= i < |s.closed| ensures Contiguous(all, s.closed[i].frames) {
      ContiguousGrows(Pictures(s.stream), s.closed[i].frames, x.picture);
    }
    forall i | 0 <= i < |written| ensures Contiguous(all, written[i].frames) {
      EndsWithIsContiguous(all, written[i].frames);
    }
  }

  /** What the pass keeps and the new clips behind it are in order, and none is expired. */
  lemma {:induction false} OpenStayOrdered(s: State, x: Input)
    requires InOrder(s.open, x.ts)
    ensures InOrder(Step(s, x).open, x.ts)
    ensures forall i :: 0 <= i < |Step(s, x).open| ==> !Expired(Step(s, x).open[i].ts, x.ts) || x.ts < 5
  {
    PassInOrder(s.open, x);
    var written := Extend(s.open, x.picture);
    OrderedBehind(written, ExpiredCount(written, x.ts), Copies(x.events, Clip(x.ts, Pictures(Recent(s.recent, x)))), x.ts);
  }

  lemma {:induction false} OrderedBehind(written: seq<Clip>, n: nat, added: seq<Clip>, ts: nat)
    requires n <= |written| && InOrder(written, ts) && forall i :: n <= i < |written| ==> !Expired(written[i].ts, ts)
    requires forall i :: 0 <= i < |added| ==> added[i].ts == ts
    ensures InOrder(written[n..] + added, ts)
    ensures forall i :: 0 <= i < |written[n..] + added| ==> !Expired((written[n..] + added)[i].ts, ts) || ts < 5
  {
    var r := written[n..] + added;
    assert forall i :: 0 <= i < |r| ==> r[i] == if i < |written| - n then written[n + i] else added[i - (|written| - n)];
  }

  lemma {:induction false} OpenStayAtEnd(s: State, x: Input)
    requires Inv(s)
    ensures forall i :: 0 <= i < |Step(s, x).open| ==> EndsWith(Pictures(Step(s, x).stream), Step(s, x).open[i].frames)
  {
    RecentEndsStream(s, x);
    OpenEndsStream(s, x);
    var written, r := Extend(s.open, x.picture), Step(s, x).open;
    var n := ExpiredCount(written, x.ts);
    forall i | 0 <= i < |r| ensures EndsWith(Pictures(Step(s, x).stream), r[i].frames) {
      assert i < |written| - n ==> r[i] == written[n + i];
    }
  }

  lemma {:induction false} StepKeepsInv(s: State, x: Input)
    requires Inv(s) && Now(s) <= x.ts
    ensures Inv(Step(s, x))
  {
    RecentEndsStream(s, x);
    OpenStayAtEnd(s, x);
    ClosedStayContiguous(s, x);
    OpenStayOrdered(s, x);
  }

  lemma {:induction false} RunKeepsInv(xs: seq<Input>)
    requires NeverBack(xs)
    ensures Inv(Run(xs))
    ensures |Run(xs).stream| == |xs| && forall i :: 0 <= i < |xs| ==> Run(xs).stream[i] == Shot(xs[i].picture, xs[i].ts)
  {
    if xs != [] {
      RunKeepsInv(xs[..|xs| - 1]);
      StepKeepsInv(Run(xs[..|xs| - 1]), xs[|xs| - 1]);
    }
  }

  /** Whole runs: with a clock that never goes back, every clip, open or closed, holds one
      unbroken stretch of the processed pictures, and an open one reaches the last. */
  lemma {:induction false} ClipsAreContiguous(xs: seq<Input>)
    requires NeverBack(xs)
    ensures var s := Run(xs); var all := seq(|xs|, i requires 0 <= i < |xs| => xs[i].picture);
      && (forall i :: 0 <= i < |s.closed| ==> Contiguous(all, s.closed[i].frames))
      && (forall i :: 0 <= i < |s.open| ==> EndsWith(all, s.open[i].frames))
  {
    RunKeepsInv(xs);
    assert Pictures(Run(xs).stream) == seq(|xs|, i requires 0 <= i < |xs| => xs[i].picture);
  }

  /** Whole runs: each pass closes exactly the clips more than five seconds old and keeps
      the others, in order, each with the new picture at its end.  In the first five seconds
      of the epoch the subtraction wraps and every clip is closed. */
  lemma {:induction false} PassClosesOldClips(xs: seq<Input>)
    requires NeverBack(xs) && xs != []
    ensures var before, x := Run(xs[..|xs| - 1]).open, xs[|xs| - 1];
      var n := ExpiredCount(Extend(before, x.picture), x.ts);
      && n <= |before|
      && (forall i :: 0 <= i < |before| ==> (i < n <==> before[i].ts + 5 < x.ts || x.ts < 5))
      && Extend(before, x.picture)[n..] == Alive(Extend(before, x.picture), x.ts)
  {
    RunKeepsInv(xs[..|xs| - 1]);
    PassInOrder(Run(xs[..|xs| - 1]).open, xs[|xs| - 1]);
  }

  /** The pictures of the inputs after number `k`, up to but not including number `n`. */
  function Following(xs: seq<Input>, k: nat, n: nat): (p: seq<Picture>)
    requires k < n <= |xs|
    ensures |p| == n - k - 1
  {
    seq(n - k - 1, i requires 0 <= i < n - k - 1 => xs[k + 1 + i].picture)
  }

  lemma {:induction false} StepWrites(s: State, x: Input, s': State, clip: Clip, clip': Clip)
    requires InOrder(s.open, x.ts) && clip in s.open
    requires s' == Step(s, x) && clip' == Clip(clip.ts, clip.frames + [x.picture])
    ensures Expired(clip.ts, x.ts) ==> clip' in s'.closed
    ensures !Expired(clip.ts, x.ts) ==> clip' in s'.open
  {
    PassInOrder(s.open, x);
    var i :| 0 <= i < |s.open| && s.open[i] == clip;
    var written := Extend(s.open, x.picture);
    assert written[i] == clip';
    Lands(written, ExpiredCount(written, x.ts), i, s.closed, Copies(x.events, Clip(x.ts, Pictures(Recent(s.recent, x)))));
  }

  lemma {:induction false} Lands(written: seq<Clip>, n: nat, i: nat, closed: seq<Clip>, added: seq<Clip>)
    requires i < |written| && n <= |written|
    ensures i < n ==> written[i] in closed + written[..n]
    ensures i >= n ==> written[i] in written[n..] + added
  {
    if i < n {
      assert (closed + written[..n])[|closed| + i] == written[i];
    } else {
      assert (written[n..] + added)[i - n] == written[i];
    }
  }

  /** What the clip opened at input `k` holds after input `n - 1`: the window of that moment
      and every picture since. */
  function ClipOf(xs: seq<Input>, k: nat, n: nat): Clip
    requires k < n <= |xs|
  {
    Clip(xs[k].ts, Pictures(Run(xs[..k + 1]).recent) + Following(xs, k, n))
  }

  lemma {:induction false} ClipOfSnoc(xs: seq<Input>, k: nat, n: nat)
    requires k < n < |xs|
    ensures ClipOf(xs, k, n + 1) == Clip(xs[k].ts, ClipOf(xs, k, n).frames + [xs[n].picture])
  {
    assert Following(xs, k, n + 1) == Following(xs, k, n) + [xs[n].picture];
  }

  lemma {:induction false} StepOpens(s: State, x: Input)
    requires x.events > 0
    ensures Clip(x.ts, Pictures(Step(s, x).recent)) in Step(s, x).open
  {
    var added := Copies(x.events, Clip(x.ts, Pictures(Recent(s.recent, x))));
    assert added[0] == Clip(x.ts, Pictures(Step(s, x).recent));
    assert added[0] in Step(s, x).open;
  }

  lemma {:induction false} RunSnoc(xs: seq<Input>, n: nat)
    requires n < |xs|
    ensures Run(xs[..n + 1]) == Step(Run(xs[..n]), xs[n])
  {
    assert xs[..n + 1][..n] == xs[..n];
  }

  lemma {:induction false} RunInv(xs: seq<Input>, n: nat)
    requires n < |xs| && NeverBack(xs)
    ensures Inv(Run(xs[..n])) && Now(Run(xs[..n])) <= xs[n].ts
  {
    RunKeepsInv(xs[..n]);
  }

  lemma {:induction false} NewClipContent(xs: seq<Input>, k: nat)
    requires NeverBack(xs) && k < |xs| && xs[k].events > 0
    ensures ClipOf(xs, k, k + 1) in Run(xs[..k + 1]).open
  {
    RunSnoc(xs, k);
    StepOpens(Run(xs[..k]), xs[k]);
    var window := Pictures(Run(xs[..k + 1]).recent);
    assert window + Following(xs, k, k + 1) == window;
  }

  lemma {:induction false} ClipGrows(xs: seq<Input>, k: nat, m: nat)
    requires NeverBack(xs) && k < m < |xs| && ClipOf(xs, k, m) in Run(xs[..m]).open
    ensures Expired(xs[k].ts, xs[m].ts) ==> ClipOf(xs, k, m + 1) in Run(xs[..m + 1]).closed
    ensures !Expired(xs[k].ts, xs[m].ts) ==> ClipOf(xs, k, m + 1) in Run(xs[..m + 1]).open
  {
    RunSnoc(xs, m);
    RunInv(xs, m);
    ClipOfSnoc(xs, k, m);
    StepWrites(Run(xs[..m]), xs[m], Run(xs[..m + 1]), ClipOf(xs, k, m), ClipOf(xs, k, m + 1));
  }

  /** No picture between inputs `k` and `n` is more than five seconds younger than `k`. */
  ghost predicate YoungUntil(xs: seq<Input>, k: nat, n: nat)
    requires k < n <= |xs|
  {
    forall m :: k < m < n ==> !Expired(xs[k].ts, xs[m].ts)
  }

  /** Nothing is lost: a clip opened at input `k` is open, with all that belongs in it, for
      as long as no picture is more than five seconds younger. */
  lemma {:induction false} OpenClipContent(xs: seq<Input>, k: nat, n: nat)
    requires NeverBack(xs) && k < n <= |xs| && xs[k].events > 0
    requires YoungUntil(xs, k, n)
    ensures ClipOf(xs, k, n) in Run(xs[..n]).open
    decreases n
  {
    var m := n - 1;
    if k == m {
      NewClipContent(xs, k);
    } else {
      OpenClipContent(xs, k, m);
      StaysOpen(xs, k, m);
    }
  }

  lemma {:induction false} StaysOpen(xs: seq<Input>, k: nat, m: nat)
    requires NeverBack(xs) && k < m < |xs| && YoungUntil(xs, k, m + 1) && ClipOf(xs, k, m) in Run(xs[..m]).open
    ensures ClipOf(xs, k, m + 1) in Run(xs[..m + 1]).open
  {
    ClipGrows(xs, k, m);
  }

  /** The first picture more than five seconds younger is the last one of the clip. */
  lemma {:induction false} ClosedClipContent(xs: seq<Input>, k: nat, m: nat)
    requires NeverBack(xs) && k < m < |xs| && xs[k].events > 0
    requires YoungUntil(xs, k, m)
    requires Expired(xs[k].ts, xs[m].ts)
    ensures ClipOf(xs, k, m + 1) in Run(xs).closed
  {
    var c := ClosesNow(xs, k, m);
    ClosedStays(xs, m + 1, c);
  }

  lemma {:induction false} ClosesNow(xs: seq<Input>, k: nat, m: nat) returns (c: Clip)
    requires NeverBack(xs) && k < m < |xs| && xs[k].events > 0
    requires YoungUntil(xs, k, m)
    requires Expired(xs[k].ts, xs[m].ts)
    ensures c == ClipOf(xs, k, m + 1) && c in Run(xs[..m + 1]).closed
  {
    OpenClipContent(xs, k, m);
    ClipGrows(xs, k, m);
    c := ClipOf(xs, k, m + 1);
  }

  lemma {:induction false} ClosedStays(xs: seq<Input>, n: nat, c: Clip)
    requires n <= |xs| && c in Run(xs[..n]).closed
    ensures c in Run(xs).closed
  {
    if n == |xs| {
      assert xs[..n] == xs;
    } else {
      assert xs[..|xs| - 1][..n] == xs[..n];
      ClosedStays(xs[..|xs| - 1], n, c);
    }
  }

  // ---------------------------------------------------------------- all clips of a run

  function EventTotal(xs: seq<Input>): nat {
    if xs == [] then 0 else EventTotal(xs[..|xs| - 1]) + xs[|xs| - 1].events
  }

  /** Whatever the clock: there are as many clips, open or closed, as there were events. */
  lemma {:induction false} OneClipPerEvent(xs: seq<Input>)
    ensures |Run(xs).closed| + |Run(xs).open| == EventTotal(xs)
  {
    if xs != [] {
      OneClipPerEvent(xs[..|xs| - 1]);
    }
  }

  /** The number of the first picture that is still in the recent queue after all of `xs`. */
  function WindowStart(xs: seq<Input>): (a: nat)
    ensures xs == [] ==> a == 0
    ensures xs != [] ==> a < |xs|
  {
    if xs == [] then 0
    else
      var m := |xs| - 1;
      var a := WindowStart(xs[..m]) + xs[m].dropped;
      if a <= m then a else m
  }

  lemma {:induction false} StreamGrows(xs: seq<Input>)
    requires xs != []
    ensures var s, x := Run(xs[..|xs| - 1]), xs[|xs| - 1];
      Run(xs).stream == s.stream + [Shot(x.picture, x.ts)] && Run(xs).recent == Recent(s.recent, x)
  {
  }

  lemma {:induction false} StreamIs(xs: seq<Input>)
    ensures |Run(xs).stream| == |xs| && forall i :: 0 <= i < |xs| ==> Run(xs).stream[i] == Shot(xs[i].picture, xs[i].ts)
  {
    if xs != [] {
      StreamIs(xs[..|xs| - 1]);
      StreamGrows(xs);
    }
  }

  /** Whatever the clock: the recent queue holds the pictures from there on. */
  lemma {:induction false} WindowIsSuffix(xs: seq<Input>)
    ensures WindowStart(xs) <= |Run(xs).stream| == |xs| && Run(xs).recent == Run(xs).stream[WindowStart(xs)..]
  {
    if xs != [] {
      var m := |xs| - 1;
      WindowIsSuffix(xs[..m]);
      StreamGrows(xs);
      WindowMoves(Run(xs[..m]).stream, Run(xs[..m]).recent, WindowStart(xs[..m]), xs[m]);
    }
  }

  lemma {:induction false} WindowMoves(stream: seq<Shot>, recent: seq<Shot>, a: nat, x: Input)
    requires a <= |stream| && recent == stream[a..]
    ensures var b := if a + x.dropped <= |stream| then a + x.dropped else |stream|;
      Recent(recent, x) == (stream + [Shot(x.picture, x.ts)])[b..]
  {
  }

  /** The pictures of the inputs from number `a` up to but not including number `e`. */
  function Stretch(xs: seq<Input>, a: nat, e: nat): (p: seq<Picture>)
    requires a <= e <= |xs|
    ensures |p| == e - a && forall i :: 0 <= i < |p| ==> p[i] == xs[a + i].picture
  {
    seq(e - a, i requires 0 <= i < e - a => xs[a + i].picture)
  }

  /** One of the first `n` inputs, after number `k`, found the clips of input `k` expired. */
  predicate Ended(xs: seq<Input>, k: nat, n: nat)
    requires k < n <= |xs|
  {
    n > k + 1 && (Ended(xs, k, n - 1) || Expired(xs[k].ts, xs[n - 1].ts))
  }

  /** Behind the first picture that did, or behind all. */
  function End(xs: seq<Input>, k: nat, n: nat): (e: nat)
    requires k < n <= |xs|
    ensures k < e <= n && (!Ended(xs, k, n) ==> e == n)
  {
    if n > k + 1 && Ended(xs, k, n - 1) then End(xs, k, n - 1) else n
  }

  /** A clip of input `k` after `n` inputs: the window of its moment and all pictures up to the
      one that closes it. */
  function ClipAt(xs: seq<Input>, k: nat, n: nat): Clip
    requires k < n <= |xs|
  {
    Clip(xs[k].ts, Stretch(xs, WindowStart(xs[..k + 1]), End(xs, k, n)))
  }

  /** For each event of the first `n` inputs the number of its input, in order. */
  function Owners(xs: seq<Input>, n: nat): (o: seq<nat>)
    requires n <= |xs|
    ensures forall i :: 0 <= i < |o| ==> o[i] < n
  {
    if n == 0 then [] else Owners(xs, n - 1) + seq(xs[n - 1].events, _ => n - 1)
  }

  /** Clip `i` of those closed and open: as its input says, and closed just when that ended. */
  ghost predicate Owned(xs: seq<Input>, n: nat, s: State, i: nat, k: nat)
    requires k < n <= |xs| && i < |s.closed + s.open|
  {
    (s.closed + s.open)[i] == ClipAt(xs, k, n) && (i < |s.closed| <==> Ended(xs, k, n))
  }

  ghost predicate AllOwned(xs: seq<Input>, n: nat, s: State)
    requires n <= |xs|
  {
    && |s.closed + s.open| == |Owners(xs, n)|
    && forall i :: 0 <= i < |Owners(xs, n)| ==> Owned(xs, n, s, i, Owners(xs, n)[i])
  }

  lemma {:induction false} StepAppends(s: State, x: Input, s': State, written: seq<Clip>, added: seq<Clip>)
    requires s' == Step(s, x) && written == Extend(s.open, x.picture)
    requires added == Copies(x.events, Clip(x.ts, Pictures(Recent(s.recent, x))))
    ensures s'.closed + s'.open == s.closed + written + added
    ensures |s'.closed| == |s.closed| + ExpiredCount(written, x.ts)
  {
  }

  lemma {:induction false} StretchSnoc(xs: seq<Input>, a: nat, n: nat)
    requires a <= n < |xs|
    ensures Stretch(xs, a, n + 1) == Stretch(xs, a, n) + [xs[n].picture]
  {
  }

  lemma {:induction false} StaysOwned(xs: seq<Input>, n: nat, s: State, s': State, i: nat, k: nat)
    requires k < n < |xs| && |s.closed| <= |s'.closed| && i < |s.closed| && Owned(xs, n, s, i, k)
    requires s'.closed[i] == s.closed[i]
    ensures Owned(xs, n + 1, s', i, k)
  {
  }

  lemma {:induction false} ClipAtGrows(xs: seq<Input>, k: nat, n: nat)
    requires k < n < |xs| && !Ended(xs, k, n)
    ensures ClipAt(xs, k, n + 1) == Clip(xs[k].ts, ClipAt(xs, k, n).frames + [xs[n].picture])
    ensures Ended(xs, k, n + 1) <==> Expired(xs[k].ts, xs[n].ts)
  {
    StretchSnoc(xs, WindowStart(xs[..k + 1]), n);
  }

  /** Clip `j` of the open ones, after one more picture. */
  lemma {:induction false} PassPlaces(s: State, x: Input, s': State, j: nat)
    requires s' == Step(s, x) && InOrder(s.open, x.ts) && j < |s.open|
    ensures var all := s'.closed + s'.open;
      && |s.closed| + j < |all| && all[|s.closed| + j] == Clip(s.open[j].ts, s.open[j].frames + [x.picture])
      && (|s.closed| + j < |s'.closed| <==> Expired(s.open[j].ts, x.ts))
  {
    var written := Extend(s.open, x.picture);
    StepAppends(s, x, s', written, Copies(x.events, Clip(x.ts, Pictures(Recent(s.recent, x)))));
    PassInOrder(s.open, x);
    assert (s'.closed + s'.open)[|s.closed| + j] == written[j];
  }

  lemma {:induction false} OpenInOrder(xs: seq<Input>, n: nat)
    requires n < |xs| && NeverBack(xs)
    ensures InOrder(Run(xs[..n]).open, xs[n].ts)
  {
    RunInv(xs, n);
  }

  lemma {:induction false} WrittenOwned(xs: seq<Input>, n: nat, s: State, s': State, j: nat, k: nat)
    requires n < |xs| && InOrder(s.open, xs[n].ts) && s' == Step(s, xs[n])
    requires k < n && j < |s.open| && s.open[j] == ClipAt(xs, k, n) && !Ended(xs, k, n)
    ensures |s.closed| + j < |s'.closed + s'.open| && Owned(xs, n + 1, s', |s.closed| + j, k)
  {
    PassPlaces(s, xs[n], s', j);
    ClipAtGrows(xs, k, n);
  }

  lemma {:induction false} ClosedKept(s: State, x: Input, s': State, i: nat)
    requires s' == Step(s, x) && i < |s.closed|
    ensures |s.closed| <= |s'.closed| && s'.closed[i] == s.closed[i]
  {
  }

  lemma {:induction false} OldOwned(xs: seq<Input>, n: nat, s: State, s': State, i: nat, k: nat)
    requires n < |xs| && InOrder(s.open, xs[n].ts) && s' == Step(s, xs[n])
    requires k < n && i < |s.closed + s.open| && Owned(xs, n, s, i, k)
    ensures i < |s'.closed + s'.open| && Owned(xs, n + 1, s', i, k)
  {
    if i < |s.closed| {
      ClosedKept(s, xs[n], s', i);
      StaysOwned(xs, n, s, s', i, k);
    } else {
      assert (s.closed + s.open)[i] == s.open[i - |s.closed|];
      WrittenOwned(xs, n, s, s', i - |s.closed|, k);
    }
  }

  lemma {:induction false} PicturesAre(shots: seq<Shot>, xs: seq<Input>, a: nat, n: nat)
    requires a <= n <= |xs| && |shots| == n - a && forall i :: 0 <= i < |shots| ==> shots[i].picture == xs[a + i].picture
    ensures Pictures(shots) == Stretch(xs, a, n)
  {
  }

  lemma {:induction false} WindowPictures(xs: seq<Input>, n: nat)
    requires 0 < n <= |xs|
    ensures Pictures(Run(xs[..n]).recent) == Stretch(xs, WindowStart(xs[..n]), n)
  {
    var a, s := WindowStart(xs[..n]), Run(xs[..n]);
    StreamIs(xs[..n]);
    WindowIsSuffix(xs[..n]);
    forall i | 0 <= i < |s.recent| ensures s.recent[i].picture == xs[a + i].picture {
      assert s.recent[i] == s.stream[a + i];
    }
    PicturesAre(s.recent, xs, a, n);
  }

  lemma {:induction false} NewClip(xs: seq<Input>, n: nat, s: State)
    requires n < |xs| && s == Run(xs[..n])
    ensures Clip(xs[n].ts, Pictures(Recent(s.recent, xs[n]))) == ClipAt(xs, n, n + 1)
  {
    RunSnoc(xs, n);
    WindowPictures(xs, n + 1);
  }

  lemma {:induction false} NewOwned(xs: seq<Input>, n: nat, s: State, s': State, i: nat)
    requires n < |xs| && s == Run(xs[..n]) && s' == Step(s, xs[n])
    requires |s.closed + s.open| <= i < |s.closed + s.open| + xs[n].events
    ensures i < |s'.closed + s'.open| && Owned(xs, n + 1, s', i, n)
  {
    var x, written := xs[n], Extend(s.open, xs[n].picture);
    var added := Copies(x.events, Clip(x.ts, Pictures(Recent(s.recent, x))));
    StepAppends(s, x, s', written, added);
    NewClip(xs, n, s);
    assert |s'.closed| <= |s.closed + written| <= i;
    assert (s'.closed + s'.open)[i] == added[i - |s.closed + s.open|];
  }

  lemma {:induction false} OwnedStep(xs: seq<Input>, n: nat, s: State, s': State)
    requires n < |xs| && NeverBack(xs) && s == Run(xs[..n]) && s' == Step(s, xs[n]) && AllOwned(xs, n, s)
    ensures AllOwned(xs, n + 1, s')
  {
    var o, o' := Owners(xs, n), Owners(xs, n + 1);
    OpenInOrder(xs, n);
    StepAppends(s, xs[n], s', Extend(s.open, xs[n].picture), Copies(xs[n].events, Clip(xs[n].ts, Pictures(Recent(s.recent, xs[n])))));
    forall i | 0 <= i < |o'| ensures Owned(xs, n + 1, s', i, o'[i]) {
      if i < |o| {
        assert o'[i] == o[i];
        OldOwned(xs, n, s, s', i, o[i]);
      } else {
        NewOwned(xs, n, s, s', i);
      }
    }
  }

  lemma {:induction false} OwnedInv(xs: seq<Input>, n: nat)
    requires n <= |xs| && NeverBack(xs)
    ensures AllOwned(xs, n, Run(xs[..n]))
  {
    if n == 0 {
      assert Run(xs[..n]) == START;
    } else {
      var m := n - 1;
      OwnedInv(xs, m);
      RunSnoc(xs, m);
      OwnedStep(xs, m, Run(xs[..m]), Run(xs[..m + 1]));
    }
  }

  /** With a clock that never goes back, the clips closed and those open are together, in the
      order of the events, one for each event, each with the pictures from its window to the one
      that closed it; and those closed are those that one did. */
  lemma {:induction false} ClipsAreExact(xs: seq<Input>)
    requires NeverBack(xs)
    ensures var s, o := Run(xs), Owners(xs, |xs|);
      && s.closed + s.open == seq(|o|, i requires 0 <= i < |o| => ClipAt(xs, o[i], |xs|))
      && forall i :: 0 <= i < |o| ==> (i < |s.closed| <==> Ended(xs, o[i], |xs|))
  {
    OwnedInv(xs, |xs|);
    assert xs[..|xs|] == xs;
    var s, o := Run(xs), Owners(xs, |xs|);
    forall i | 0 <= i < |o| ensures (s.closed + s.open)[i] == ClipAt(xs, o[i], |xs|) && (i < |s.closed| <==> Ended(xs, o[i], |xs|)) {
      assert Owned(xs, |xs|, s, i, o[i]);
    }
  }

  /** Without that assumption on the clock a pass can close the wrong clip: when it falls back
      from 12 to 11, the front clip goes although it is the second that has expired ... */
  lemma {:induction false} ClockGoingBackClosesWrongClip(c: seq<Picture>, d: seq<Picture>)
    ensures var q := [Clip(10, c), Clip(12, d)];
      && Expired(q[1].ts, 11) && !Expired(q[0].ts, 11)
      && ExpiredCount(q, 11) == 1 && q[1..] != Alive(q, 11)
  {
    var q := [Clip(10, c), Clip(12, d)];
    assert q[..1] == [q[0]] && q[..1][..0] == [];
    PassIsExact(q, 11);
    assert ExpiredCount(q[..1], 11) == 0;
  }

  /** ... and that queue is what two pictures with an event each leave behind. */
  lemma {:induction false} WrongClipIsReachable(p: Picture, q: Picture)
    ensures Run([Input(p, 10, 1, 0), Input(q, 12, 1, 0)]).open == [Clip(10, [p, q]), Clip(12, [p, q])]
  {
    var xs := [Input(p, 10, 1, 0), Input(q, 12, 1, 0)];
    assert xs[..2] == xs && xs[..1] == [xs[0]] && xs[..0] == [];
    RunSnoc(xs, 0);
    RunSnoc(xs, 1);
    FirstEvent(p);
    SecondEvent(p, q);
  }

  lemma {:induction false} FirstEvent(p: Picture)
    ensures Step(START, Input(p, 10, 1, 0)) == State([Shot(p, 10)], [Shot(p, 10)], [Clip(10, [p])], [])
  {
    var x, written := Input(p, 10, 1, 0), Extend(START.open, p);
    assert written == [] && ExpiredCount(written, 10) == 0 && written[..0] == [] && written[0..] == [];
    assert Recent(START.recent, x) == [Shot(p, 10)];
    assert Pictures(Recent(START.recent, x)) == [p];
    assert Copies(1, Clip(10, Pictures(Recent(START.recent, x)))) == [Clip(10, [p])];
    assert Step(START, x).stream == [Shot(p, 10)] && Step(START, x).closed == [];
  }

  lemma {:induction false} SecondEvent(p: Picture, q: Picture)
    ensures var s := State([Shot(p, 10)], [Shot(p, 10)], [Clip(10, [p])], []);
      Step(s, Input(q, 12, 1, 0)).open == [Clip(10, [p, q]), Clip(12, [p, q])]
  {
    var s, x := State([Shot(p, 10)], [Shot(p, 10)], [Clip(10, [p])], []), Input(q, 12, 1, 0);
    var written, shots := Extend(s.open, q), Recent(s.recent, x);
    assert [p] + [q] == [p, q];
    assert written == [Clip(10, [p, q])];
    OneAlive(written, 12);
    assert s.recent[0..] == s.recent;
    assert shots == [Shot(p, 10), Shot(q, 12)];
    assert Pictures(shots) == [p, q];
    assert Copies(1, Clip(12, Pictures(shots))) == [Clip(12, [p, q])];
    assert ExpiredCount(written, x.ts) == 0 && written[0..] == written;
    assert Step(s, x).open == written + [Clip(12, [p, q])];
    assert written + [Clip(12, [p, q])] == [Clip(10, [p, q]), Clip(12, [p, q])];
  }

  lemma {:induction false} OneAlive(q: seq<Clip>, ts: nat)
    requires |q| == 1 && !Expired(q[0].ts, ts)
    ensures ExpiredCount(q, ts) == 0
  {
    assert q[..0] == [];
  }

  /** The first `d` clips are the expired ones. */
  ghost predicate FirstExpired(q: seq<Clip>, ts: nat, d: nat) {
    d <= |q| && forall i :: 0 <= i < |q| ==> (Expired(q[i].ts, ts) <==> i < d)
  }

  lemma {:induction false} FirstAreExpired(q: seq<Clip>, ts: nat, d: nat)
    requires FirstExpired(q, ts, d)
    ensures OldestFirst(q, ts) && d == ExpiredCount(q, ts)
  {
    ExpiredAreFirst(q, ts);
    var n := ExpiredCount(q, ts);
    if n < |q| {
      assert Expired(q[n].ts, ts) <==> n < d;
    }
    if d < |q| {
      assert Expired(q[d].ts, ts) <==> d < n;
    }
  }

  lemma {:induction false} FirstGrows(q: seq<Clip>, ts: nat, k: nat, d: nat)
    requires k < |q| && FirstExpired(q[..k], ts, d)
    ensures Expired(q[k].ts, ts) && d < k ==> !OldestFirst(q, ts)
    ensures !(Expired(q[k].ts, ts) && d < k) ==> FirstExpired(q[..k + 1], ts, if Expired(q[k].ts, ts) then d + 1 else d)
  {
    if d < k {
      assert q[..k][d] == q[d];
    }
    assert forall i :: 0 <= i < k ==> q[..k][i] == q[..k + 1][i];
  }

  // ---------------------------------------------------------------- the recorder itself

  /** A video file being written. */
  class Writer {
    var frames: seq<Picture>
    var released: bool

    constructor ()
      ensures frames == [] && !released
    {
      frames, released := [], false;
    }

    method Write(p: Picture)
      requires !released
      modifies this`frames
      ensures frames == old(frames) + [p]
    {
      frames := frames + [p];
    }

    method Release()
      requires !released
      modifies this`released
      ensures released
    {
      released := true;
    }
  }

  datatype FileNode = FileNode(writer: Writer, ts: nat)

  ghost predicate Distinct(q: seq<FileNode>) {
    forall i, j :: 0 <= i < j < |q| ==> q[i].writer != q[j].writer
  }

  function Writers(q: seq<FileNode>): set<Writer> {
    set f | f in q :: f.writer
  }

  /** The files of `q` hold what the clips say. */
  ghost predicate Hold(q: seq<FileNode>, clips: seq<Clip>)
    reads Writers(q)
  {
    && |q| == |clips|
    && forall i :: 0 <= i < |q| ==> q[i].ts == clips[i].ts && q[i].writer.frames == clips[i].frames
  }

  /** The queues of one camera.  The nodes already closed are remembered for the
      specification only. */
  class Recorder {
    var recent: seq<Shot>
    var files: seq<FileNode>
    ghost var shut: seq<FileNode>
    ghost var model: State

    ghost predicate Valid()
      reads this, Writers(shut + files)
    {
      && recent == model.recent
      && Distinct(shut + files)
      && Hold(shut + files, model.closed + model.open)
      && |shut| == |model.closed|
      && forall i :: 0 <= i < |shut + files| ==> ((shut + files)[i].writer.released <==> i < |shut|)
    }

    constructor ()
      ensures Valid() && model == START && Writers(shut + files) == {}
    {
      recent, files, shut, model := [], [], [], START;
    }

    /** The recent queue takes the picture (`frame_in_5s_handle`). */
    method FrameIn5s(x: Input)
      requires Valid()
      modifies this`recent, this`model
      ensures Valid()
      ensures model == old(model).(stream := old(model).stream + [Shot(x.picture, x.ts)], recent := Recent(old(recent), x))
    {
      recent := recent[if x.dropped <= |recent| then x.dropped else |recent|..];
      recent := recent + [Shot(x.picture, x.ts)];
      model := model.(stream := model.stream + [Shot(x.picture, x.ts)], recent := recent);
    }

    /** The state of a pass that has visited `k` nodes and taken `d` off the queue, all of them
        among the visited.  `all` are the nodes and `was` what they held before; the first `c`
        were closed already. */
    ghost predicate Passing(all: seq<FileNode>, was: seq<Clip>, c: nat, k: nat, d: nat, picture: Picture)
      reads this, Writers(all)
    {
      && c + k <= |all| == |was| && Distinct(all)
      && d <= k && |shut| == c + d && shut + files == all
      && (forall i :: 0 <= i < |all| ==> (all[i].writer.released <==> i < |shut|))
      && (forall i :: 0 <= i < |all| ==> all[i].ts == was[i].ts)
      && (forall i :: 0 <= i < |all| ==>
            all[i].writer.frames == if c <= i < c + k then was[i].frames + [picture] else was[i].frames)
    }

    /** One node of the pass.  The source frees the node it looks at together with the one it
        takes off the queue; it is a fault when they are two. */
    method Visit(node: FileNode, picture: Picture, ts: nat,
                 ghost all: seq<FileNode>, ghost was: seq<Clip>, ghost c: nat, ghost k: nat, ghost d: nat)
      returns (fault: bool)
      requires Passing(all, was, c, k, d, picture)
      requires c + k < |all| && node == all[c + k]
      modifies this`files, this`shut, node.writer
      ensures fault <==> Expired(node.ts, ts) && d < k
      ensures !fault ==> Passing(all, was, c, k + 1, if Expired(node.ts, ts) then d + 1 else d, picture)
      ensures forall f :: f in files ==> f in old(files)
    {
      fault := false;
      node.writer.Write(picture);
      if Expired(node.ts, ts) {
        var front := files[0];
        assert front == (shut + files)[|shut|] == all[c + d];
        if front.writer != node.writer {
          fault := true;
          return;
        }
        files := files[1..];
        shut := shut + [front];
        assert shut + files == all;
        front.writer.Release();
      }
    }

    /** Write the picture to every open file; on an expired one, take a file off the front
        of the queue and close it (`file_list_handle`).  That goes wrong just when an expired
        file lies behind one that is not. */
    method FileList(picture: Picture, ts: nat) returns (fault: bool)
      requires Valid()
      modifies this`files, this`shut, this`model, Writers(files)
      ensures fault <==> !OldestFirst(Extend(old(model).open, picture), ts)
      ensures !fault ==> Valid() && Writers(files) <= old(Writers(files))
      ensures var written := Extend(old(model).open, picture);
        var n := ExpiredCount(written, ts);
        !fault ==> model == old(model).(open := written[n..], closed := old(model).closed + written[..n])
    {
      ghost var written := Extend(model.open, picture);
      ghost var n := ExpiredCount(written, ts);
      ghost var next := model.(open := written[n..], closed := model.closed + written[..n]);
      ghost var d;
      fault, d := PassOver(picture, ts);
      if !fault {
        FirstAreExpired(written, ts, d);
        model := next;
      }
    }

    method PassOver(picture: Picture, ts: nat) returns (fault: bool, ghost d: nat)
      requires Valid()
      modifies this`files, this`shut, Writers(files)
      ensures fault <==> !OldestFirst(Extend(model.open, picture), ts)
      ensures !fault ==> d <= |model.open| && FirstExpired(Extend(model.open, picture), ts, d)
      ensures !fault ==> Writers(files) <= old(Writers(files)) && Distinct(shut + files) && |shut| == |model.closed| + d
      ensures !fault ==> forall i :: 0 <= i < |shut + files| ==> ((shut + files)[i].writer.released <==> i < |shut|)
      ensures !fault ==> Hold(shut + files, (model.closed + Extend(model.open, picture)[..d]) + Extend(model.open, picture)[d..])
    {
      ghost var all, done, open := shut + files, model.closed, model.open;
      BeforePass(picture);
      fault, d := VisitAll(picture, ts, all, done + open, Extend(open, picture));
      if !fault {
        Passed(all, done, open, d, picture);
      }
    }

    lemma {:induction false} BeforePass(picture: Picture)
      requires Valid()
      ensures Passing(shut + files, model.closed + model.open, |shut|, 0, 0, picture)
      ensures |files| == |model.open| && forall i :: 0 <= i < |files| ==> files[i].ts == Extend(model.open, picture)[i].ts
    {
      assert forall i :: 0 <= i < |files| ==> files[i] == (shut + files)[|shut| + i];
      assert forall i :: 0 <= i < |files| ==> model.open[i] == (model.closed + model.open)[|shut| + i];
    }

    /** One round of the loop. */
    method VisitNext(node: FileNode, picture: Picture, ts: nat, ghost all: seq<FileNode>, ghost was: seq<Clip>,
                     ghost c: nat, ghost k: nat, ghost d: nat, ghost written: seq<Clip>)
      returns (fault: bool, ghost e: nat)
      requires Passing(all, was, c, k, d, picture) && c + k < |all| && node == all[c + k]
      requires k < |written| && node.ts == written[k].ts && FirstExpired(written[..k], ts, d)
      modifies this`files, this`shut, node.writer
      ensures fault ==> !OldestFirst(written, ts)
      ensures !fault ==> Passing(all, was, c, k + 1, e, picture) && FirstExpired(written[..k + 1], ts, e)
      ensures forall f :: f in files ==> f in old(files)
    {
      FirstGrows(written, ts, k, d);
      fault := Visit(node, picture, ts, all, was, c, k, d);
      e := if Expired(node.ts, ts) then d + 1 else d;
    }

    method VisitAll(picture: Picture, ts: nat, ghost all: seq<FileNode>, ghost was: seq<Clip>, ghost written: seq<Clip>)
      returns (fault: bool, ghost d: nat)
      requires Passing(all, was, |shut|, 0, 0, picture)
      requires |written| == |files| && forall i :: 0 <= i < |files| ==> files[i].ts == written[i].ts
      modifies this`files, this`shut, Writers(files)
      ensures fault <==> !OldestFirst(written, ts)
      ensures !fault ==> d <= |written| && FirstExpired(written, ts, d) && Passing(all, was, old(|shut|), |written|, d, picture)
      ensures !fault ==> forall f :: f in files ==> f in old(files)
    {
      assert files == all[|shut|..];
      fault, d := VisitEach(files, picture, ts, all, was, |shut|, written);
      if !fault {
        FirstAreExpired(written, ts, d);
      }
    }

    method VisitEach(nodes: seq<FileNode>, picture: Picture, ts: nat, ghost all: seq<FileNode>, ghost was: seq<Clip>,
                     ghost c: nat, ghost written: seq<Clip>)
      returns (fault: bool, ghost d: nat)
      requires Passing(all, was, c, 0, 0, picture) && nodes == files && nodes == all[c..]
      requires |written| == |nodes| && forall i :: 0 <= i < |nodes| ==> nodes[i].ts == written[i].ts
      modifies this`files, this`shut, Writers(nodes)
      ensures fault ==> !OldestFirst(written, ts)
      ensures !fault ==> FirstExpired(written, ts, d) && Passing(all, was, c, |nodes|, d, picture)
      ensures !fault ==> forall f :: f in files ==> f in nodes
    {
      var k := 0;
      fault, d := false, 0;
      while k < |nodes|
        invariant 0 <= k <= |nodes| && !fault
        invariant Passing(all, was, c, k, d, picture)
        invariant FirstExpired(written[..k], ts, d)
        invariant forall f :: f in files ==> f in nodes
      {
        var node := nodes[k];
        assert node == all[c..][k] == all[c + k];
        fault, d := VisitNext(node, picture, ts, all, was, c, k, d, written);
        if fault {
          return;
        }
        k := k + 1;
      }
      assert written[..k] == written;
    }

    lemma {:induction false} Passed(all: seq<FileNode>, done: seq<Clip>, open: seq<Clip>, n: nat, picture: Picture)
      requires Passing(all, done + open, |done|, |open|, n, picture) && |all| == |done| + |open|
      ensures Hold(shut + files, (done + Extend(open, picture)[..n]) + Extend(open, picture)[n..])
    {
      var now := (done + Extend(open, picture)[..n]) + Extend(open, picture)[n..];
      assert now == done + Extend(open, picture);
    }

    /** A new file that starts with the recent pictures (`event_handle`). */
    method EventFile(ts: nat)
      requires Valid()
      modifies this`files, this`model
      ensures Valid()
      ensures fresh(Writers(files) - old(Writers(files)))
      ensures recent == [] ==> model == old(model)
      ensures recent != [] ==> model == old(model).(open := old(model).open + [Clip(ts, Pictures(recent))])
    {
      if recent == [] {
        return;
      }
      var writer := new Writer();
      var i := 0;
      while i < |recent|
        invariant 0 <= i <= |recent|
        invariant fresh(writer) && !writer.released && writer.frames == Pictures(recent[..i])
        invariant files == old(files) && model == old(model)
      {
        writer.Write(recent[i].picture);
        PicturesSnoc(recent[..i], recent[i]);
        assert recent[..i + 1] == recent[..i] + [recent[i]];
        i := i + 1;
      }
      assert recent[..i] == recent;
      ghost var all := shut + files;
      assert writer !in Writers(all);
      files := files + [FileNode(writer, ts)];
      assert shut + files == all + [FileNode(writer, ts)];
      model := model.(open := model.open + [Clip(ts, Pictures(recent))]);
      assert model.closed + model.open == old(model.closed + model.open) + [Clip(ts, Pictures(recent))];
    }

    /** One round of `pic_video_handle`. */
    method Process(x: Input) returns (fault: bool)
      requires Valid()
      modifies this, Writers(files)
      ensures fault <==> !OldestFirst(Extend(old(model).open, x.picture), x.ts)
      ensures !fault ==> Valid() && model == Step(old(model), x) && fresh(Writers(files) - old(Writers(files)))
    {
      FrameIn5s(x);
      fault := FileList(x.picture, x.ts);
      if !fault {
        OpenFiles(x);
      }
    }

    /** A new file for each event. */
    method OpenFiles(x: Input)
      requires Valid()
      modifies this`files, this`model
      ensures Valid() && fresh(Writers(files) - old(Writers(files)))
      ensures recent != [] ==> model == old(model).(open := old(model).open + Copies(x.events, Clip(x.ts, Pictures(recent))))
    {
      ghost var mid, clip := model, Clip(x.ts, Pictures(recent));
      assert mid.open + Copies(0, clip) == mid.open;
      var j := 0;
      while j < x.events
        invariant 0 <= j <= x.events && Valid()
        invariant fresh(Writers(files) - old(Writers(files)))
        invariant recent != [] ==> model == mid.(open := mid.open + Copies(j, clip))
      {
        EventFile(x.ts);
        j := j + 1;
        assert mid.open + Copies(j, clip) == (mid.open + Copies(j - 1, clip)) + [clip];
      }
    }

    /** The thread's loop.  A clock that never goes back is all it takes for every pass to
        close the very node it was looking at: no round ever goes wrong. */
    method ProcessAll(xs: seq<Input>)
      requires Valid() && model == START && NeverBack(xs)
      modifies this
      ensures Valid() && model == Run(xs)
    {
      assert files == [] by {
        assert |shut + files| == 0;
      }
      assert xs[..0] == [];
      var i := 0;
      while i < |xs|
        invariant 0 <= i <= |xs|
        invariant Valid() && model == Run(xs[..i])
        invariant fresh(Writers(files))
      {
        RunInv(xs, i);
        RunSnoc(xs, i);
        InOrderIsOldestFirst(Extend(model.open, xs[i].picture), xs[i].ts);
        var fault := Process(xs[i]);
        assert !fault;
        i := i + 1;
      }
      assert xs[..i] == xs;
    }
  }
}
