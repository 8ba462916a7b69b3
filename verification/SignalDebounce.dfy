/** The debounced "people present" value sent to the signal controller (`send_value1` in
    zen_rtsp/cam_alg.c), for one area and one setting of `last_frames`. */
module SignalDebounce {
  import opened Modular

  datatype State = State(oldValid: bool, repeats: nat, value: bool)

  function Step(s: State, valid: bool, lastFrames: nat): State {
    var repeats := if valid == s.oldValid then s.repeats + 1 else s.repeats;
    if repeats > lastFrames then State(valid, 0, valid) else State(valid, repeats, s.value)
  }

  class Area {
    var oldValid: bool
    var repeats: nat
    var value: bool

    ghost function View(): State
      reads this
    {
      State(oldValid, repeats, value)
    }

    constructor ()
      ensures View() == State(false, 0, false)
    {
      oldValid, repeats, value := false, 0, false;
    }

    method SendValue(personCount: int, thre: int, lastFrames: nat) returns (ret: bool, needSend: bool)
      modifies this
      ensures View() == Step(old(View()), personCount > thre, lastFrames)
      ensures ret == value && (needSend <==> value != old(value))
    {
      needSend := false;
      var valid := personCount > thre;
      if valid == oldValid {
        repeats := repeats + 1;
      }
      oldValid := valid;
      if repeats > lastFrames && valid {
        if !value {
          needSend := true;
        }
        repeats := 0;
        value := true;
      }
      if repeats > lastFrames && !valid {
        if value {
          needSend := true;
        }
        repeats := 0;
        value := false;
      }
      ret := value;
    }
  }

  // ---------------------------------------------------------------- runs

  function Run(xs: seq<bool>, lastFrames: nat): State {
    if xs == [] then State(false, 0, false) else Step(Run(xs[..|xs| - 1], lastFrames), xs[|xs| - 1], lastFrames)
  }

  /** Sample `i` is the same as the one before; before the first one nobody was there. */
  predicate Repeats(xs: seq<bool>, i: nat)
    requires i < |xs|
  {
    xs[i] == (i > 0 && xs[i - 1])
  }

  /** How many of the first `n` samples repeat the one before. */
  function RepeatCount(xs: seq<bool>, n: nat): nat
    requires n <= |xs|
  {
    if n == 0 then 0 else RepeatCount(xs, n - 1) + if Repeats(xs, n - 1) then 1 else 0
  }

  /** Sample `i` is a repeat that completes another `lastFrames + 1` of them. */
  predicate Fires(xs: seq<bool>, lastFrames: nat, i: nat)
    requires i < |xs|
  {
    Repeats(xs, i) && RepeatCount(xs, i + 1) % (lastFrames + 1) == 0
  }

  lemma {:induction false} CountOfPrefix(xs: seq<bool>, m: nat, n: nat)
    requires n <= m <= |xs|
    ensures RepeatCount(xs[..m], n) == RepeatCount(xs, n)
  {
    if n > 0 {
      CountOfPrefix(xs, m, n - 1);
    }
  }

  /** The sample that fired last among the first `n`; nobody, if none did. */
  function LastFired(xs: seq<bool>, lastFrames: nat, n: nat): bool
    requires n <= |xs|
  {
    n > 0 && if Fires(xs, lastFrames, n - 1) then xs[n - 1] else LastFired(xs, lastFrames, n - 1)
  }

  lemma {:induction false} FiredOfPrefix(xs: seq<bool>, lastFrames: nat, m: nat, n: nat)
    requires n <= m <= |xs|
    ensures LastFired(xs[..m], lastFrames, n) == LastFired(xs, lastFrames, n)
  {
    if n > 0 {
      CountOfPrefix(xs, m, n);
      FiredOfPrefix(xs, lastFrames, m, n - 1);
    }
  }

  /** The value is that of the last sample that fired: what counts is every (lastFrames+1)-st
      repeat, not that they follow one another. */
  lemma {:induction false} ValueIsLastFired(xs: seq<bool>, lastFrames: nat)
    ensures var s := Run(xs, lastFrames);
      && s.repeats == RepeatCount(xs, |xs|) % (lastFrames + 1)
      && s.oldValid == (|xs| > 0 && xs[|xs| - 1])
      && s.value == LastFired(xs, lastFrames, |xs|)
  {
    if xs != [] {
      var m := |xs| - 1;
      ValueIsLastFired(xs[..m], lastFrames);
      CountOfPrefix(xs, m, m);
      FiredOfPrefix(xs, lastFrames, m, m);
      ModNext(RepeatCount(xs, m), lastFrames + 1);
    }
  }

  /** All samples from `w` on are `v`. */
  predicate Steady(xs: seq<bool>, w: nat, v: bool) {
    forall i :: w <= i < |xs| ==> xs[i] == v
  }

  lemma {:induction false} SteadyCount(xs: seq<bool>, w: nat, v: bool, n: nat)
    requires Steady(xs, w, v) && w < n <= |xs|
    ensures RepeatCount(xs, n) == RepeatCount(xs, w + 1) + (n - w - 1)
  {
    if n > w + 1 {
      SteadyCount(xs, w, v, n - 1);
    }
  }

  lemma {:induction false} SteadyKeeps(xs: seq<bool>, lastFrames: nat, w: nat, v: bool, n: nat)
    requires Steady(xs, w, v) && w < n <= |xs| && LastFired(xs, lastFrames, w + 1) == v
    ensures LastFired(xs, lastFrames, n) == v
  {
    if n > w + 1 {
      SteadyKeeps(xs, lastFrames, w, v, n - 1);
    }
  }

  /** `lastFrames + 2` equal samples in a row always settle the value ... */
  lemma {:induction false} SteadySettles(xs: seq<bool>, lastFrames: nat, v: bool)
    requires |xs| >= lastFrames + 2 && Steady(xs, |xs| - lastFrames - 2, v)
    ensures Run(xs, lastFrames).value == v
  {
    var w, n := |xs| - lastFrames - 2, lastFrames + 1;
    var k := RepeatCount(xs, w + 1);
    var i := w + n - k % n;
    SteadyCount(xs, w, v, i + 1);
    assert (k / n + 1) * n == k / n * n + n;
    ModIs(RepeatCount(xs, i + 1), n, k / n + 1, 0);
    assert Fires(xs, lastFrames, i);
    SteadyKeeps(xs, lastFrames, i, v, |xs|);
    ValueIsLastFired(xs, lastFrames);
  }

  /** Where the last stretch of equal samples begins. */
  function StretchStart(xs: seq<bool>): (w: nat)
    requires xs != []
    ensures w < |xs| && Steady(xs, w, xs[|xs| - 1]) && (w > 0 ==> xs[w - 1] != xs[w])
  {
    var m := |xs| - 1;
    if m == 0 || xs[m - 1] != xs[m] then m else StretchStart(xs[..m])
  }

  lemma {:induction false} RunSnoc(xs: seq<bool>, lastFrames: nat, n: nat)
    requires n < |xs|
    ensures Run(xs[..n + 1], lastFrames) == Step(Run(xs[..n], lastFrames), xs[n], lastFrames)
    ensures Run(xs[..n], lastFrames).oldValid == (n > 0 && xs[n - 1]) && Run(xs[..n], lastFrames).repeats <= lastFrames
  {
    assert xs[..n + 1][..n] == xs[..n];
    ValueIsLastFired(xs[..n], lastFrames);
  }

  /** From its first sample on a stretch is counted, on top of what the counter already held,
      and while the value is another one it changes at one place only. */
  lemma {:induction false} StretchCounts(xs: seq<bool>, lastFrames: nat, w: nat, v: bool, n: nat)
    requires w < n <= |xs| && Steady(xs, w, v) && !Repeats(xs, w) && Run(xs[..w], lastFrames).value != v
    ensures var s, t := Run(xs[..w], lastFrames), Run(xs[..n], lastFrames);
      if s.repeats + (n - w - 1) <= lastFrames then t == State(v, s.repeats + (n - w - 1), !v) else t.value == v
  {
    var m := n - 1;
    RunSnoc(xs, lastFrames, m);
    if w < m {
      StretchCounts(xs, lastFrames, w, v, m);
    }
  }

  /** The value changes only to what the last two samples say, and exactly this many equal
      samples after the new value first appeared: the full `lastFrames + 2`, less what the
      counter held when it did. */
  lemma {:induction false} ChangeTakes(xs: seq<bool>, lastFrames: nat, x: bool)
    requires Run(xs + [x], lastFrames).value != Run(xs, lastFrames).value
    ensures var ys := xs + [x]; var w := StretchStart(ys);
      && ys[w] == x && !Repeats(ys, w)
      && |ys| - w == lastFrames + 2 - Run(ys[..w], lastFrames).repeats >= 2
      && Run(ys, lastFrames).value == x == xs[|xs| - 1]
      && RepeatCount(ys, |ys|) % (lastFrames + 1) == 0
  {
    var ys := xs + [x];
    ValueIsLastFired(xs, lastFrames);
    ValueIsLastFired(ys, lastFrames);
    var w := StretchStart(ys);
    var n := |xs|;
    assert ys[..n] == xs && ys[..n + 1] == ys;
    FiredOfPrefix(ys, lastFrames, n, n);
    RunSnoc(ys, lastFrames, n);
    RunSnoc(ys, lastFrames, w);
    if Run(ys[..w], lastFrames).value == x {
      StretchKeeps(ys, lastFrames, w, x, n);
    }
    StretchCounts(ys, lastFrames, w, x, n + 1);
    if w < n {
      StretchCounts(ys, lastFrames, w, x, n);
    }
  }

  /** So a change is backed by the full `lastFrames + 2` equal samples just when the counter
      stood at zero when the new value first appeared. */
  lemma {:induction false} ChangeIsDebounced(xs: seq<bool>, lastFrames: nat, x: bool)
    requires Run(xs + [x], lastFrames).value != Run(xs, lastFrames).value
    ensures var ys := xs + [x]; var w := StretchStart(ys);
      |ys| - w >= lastFrames + 2 <==> Run(ys[..w], lastFrames).repeats == 0
  {
    ChangeTakes(xs, lastFrames, x);
  }

  /** A stretch of the value that is already shown does not change it. */
  lemma {:induction false} StretchKeeps(xs: seq<bool>, lastFrames: nat, w: nat, v: bool, n: nat)
    requires w <= n <= |xs| && Steady(xs, w, v) && Run(xs[..w], lastFrames).value == v
    ensures Run(xs[..n], lastFrames).value == v
  {
    if w < n {
      RunSnoc(xs, lastFrames, n - 1);
      StretchKeeps(xs, lastFrames, w, v, n - 1);
    }
  }

  function Quiet(n: nat): (r: seq<bool>)
    ensures |r| == n && forall i :: 0 <= i < n ==> !r[i]
  {
    if n == 0 then [] else Quiet(n - 1) + [false]
  }

  /** ... but two can be enough: the repeats of the old value count for the new one too. */
  lemma {:induction false} TwoFramesSuffice(lastFrames: nat)
    ensures !Run(Quiet(lastFrames), lastFrames).value
    ensures Run(Quiet(lastFrames) + [true, true], lastFrames).value
  {
    var xs := Quiet(lastFrames) + [true, true];
    QuietCount(xs, lastFrames, lastFrames);
    QuietCount(Quiet(lastFrames), lastFrames, lastFrames);
    ValueIsLastFired(xs, lastFrames);
    ValueIsLastFired(Quiet(lastFrames), lastFrames);
    ModIs(lastFrames + 1, lastFrames + 1, 1, 0);
  }

  lemma {:induction false} QuietCount(xs: seq<bool>, lastFrames: nat, n: nat)
    requires n <= lastFrames <= |xs| && forall i :: 0 <= i < lastFrames ==> !xs[i]
    ensures RepeatCount(xs, n) == n && !LastFired(xs, lastFrames, n)
  {
    if n > 0 {
      QuietCount(xs, lastFrames, n - 1);
    }
  }
}
