/** The one message whose members depend on its content: the plans of all areas
    (CLASS_mPersonAreaTimes in zen_rtsp/client_obj.c).  Each area has an entry with a plan count
    and room for 48 plans; two shorts of each plan that counts are reversed in place.  The
    count is not checked, so the plans of one area may reach into the entries of the next. */
module PlanConversion {

  type Byte = x: int | 0 <= x < 256

  const PERSON_AREAS_MAX := 8
  const PLAN_MAX := 48
  const PLAN_SIZE := 9
  const ENTRY_SIZE := 434

  /** How far the last plan of the last area lies behind the start of the message, when every
      count is as large as its byte allows. */
  const REACH := 5335

  // ---------------------------------------------------------------- specification

  /** The short at `p` with its bytes reversed. */
  function FlipAt(b: seq<Byte>, p: nat): (r: seq<Byte>)
    ensures |r| == |b|
  {
    if p + 2 <= |b| then b[p := b[p + 1]][p + 1 := b[p]] else b
  }

  /** What can be done to a buffer at a place; below, always FlipAt. */
  type Act = (seq<Byte>, nat) -> seq<Byte>

  /** The act at each of `spots`, one after the other. */
  function Each(f: Act, spots: seq<nat>, b: seq<Byte>): seq<Byte> {
    if spots == [] then b else f(Each(f, spots[..|spots| - 1], b), spots[|spots| - 1])
  }

  /** The two shorts of each of the first `n` plans of the area at `q`. */
  function PlansOf(f: Act, n: nat, q: nat, b: seq<Byte>): seq<Byte> {
    if n == 0 then b
    else f(f(PlansOf(f, n - 1, q, b), q + PLAN_SIZE * (n - 1) + 7), q + PLAN_SIZE * (n - 1) + 9)
  }

  /** `planTotal` of area `j`. */
  function PlanTotal(b: seq<Byte>, j: nat): Byte {
    if ENTRY_SIZE * j + 1 < |b| then b[ENTRY_SIZE * j + 1] else 0
  }

  /** The first `n` areas, each with the plan count that it then finds. */
  function Areas(f: Act, n: nat, b: seq<Byte>): seq<Byte> {
    if n == 0 then b
    else PlansOf(f, PlanTotal(Areas(f, n - 1, b), n - 1), ENTRY_SIZE * (n - 1), Areas(f, n - 1, b))
  }

  function Times(b: seq<Byte>): seq<Byte> {
    Areas(FlipAt, PERSON_AREAS_MAX, b)
  }

  // ---------------------------------------------------------------- the act

  /** Where the byte at `x` comes from. */
  function Partner(n: nat, p: nat, x: nat): nat {
    if p + 2 <= n && x == p then p + 1 else if p + 2 <= n && x == p + 1 then p else x
  }

  ghost predicate Swaps(f: Act) {
    forall b, p :: IsSwap(f, b, p)
  }

  ghost predicate IsSwap(f: Act, b: seq<Byte>, p: nat) {
    |f(b, p)| == |b| && forall x :: 0 <= x < |b| ==> f(b, p)[x] == b[Partner(|b|, p, x)]
  }

  lemma {:induction false} FlipAtSwaps()
    ensures Swaps(FlipAt)
  {
    forall b, p ensures IsSwap(FlipAt, b, p) {
    }
  }

  /** The same short, or two that do not overlap. */
  predicate Compatible(p: nat, q: nat) {
    p == q || p + 2 <= q || q + 2 <= p
  }

  lemma {:induction false} SwapsCommute(f: Act, b: seq<Byte>, p: nat, q: nat)
    requires Swaps(f) && Compatible(p, q)
    ensures f(f(b, q), p) == f(f(b, p), q)
  {
    assert IsSwap(f, b, p) && IsSwap(f, b, q) && IsSwap(f, f(b, p), q) && IsSwap(f, f(b, q), p);
  }

  lemma {:induction false} SwapTwice(f: Act, b: seq<Byte>, p: nat)
    requires Swaps(f)
    ensures f(f(b, p), p) == b
  {
    assert IsSwap(f, b, p) && IsSwap(f, f(b, p), p);
  }

  // ---------------------------------------------------------------- many acts

  lemma {:induction false} EachSnoc(f: Act, spots: seq<nat>, p: nat, b: seq<Byte>)
    ensures Each(f, spots + [p], b) == f(Each(f, spots, b), p)
  {
    assert (spots + [p])[..|spots|] == spots;
  }

  lemma {:induction false} EachConcat(f: Act, spots: seq<nat>, more: seq<nat>, b: seq<Byte>)
    ensures Each(f, spots + more, b) == Each(f, more, Each(f, spots, b))
  {
    if more == [] {
      assert spots + more == spots;
    } else {
      var rest, p := more[..|more| - 1], more[|more| - 1];
      EachConcat(f, spots, rest, b);
      EachSnoc(f, spots + rest, p, b);
      assert spots + more == spots + rest + [p];
    }
  }

  lemma {:induction false} EachLength(f: Act, spots: seq<nat>, b: seq<Byte>)
    requires Swaps(f)
    ensures |Each(f, spots, b)| == |b|
  {
    if spots != [] {
      EachLength(f, spots[..|spots| - 1], b);
      assert IsSwap(f, Each(f, spots[..|spots| - 1], b), spots[|spots| - 1]);
    }
  }

  lemma {:induction false} EachCommutes(f: Act, spots: seq<nat>, p: nat, b: seq<Byte>)
    requires Swaps(f) && forall k :: 0 <= k < |spots| ==> Compatible(spots[k], p)
    ensures Each(f, spots, f(b, p)) == f(Each(f, spots, b), p)
  {
    if spots != [] {
      var m := |spots| - 1;
      EachCommutes(f, spots[..m], p, b);
      SwapsCommute(f, Each(f, spots[..m], b), p, spots[m]);
    }
  }

  /** Shorts that are pairwise the same or apart: reversing all of them twice changes nothing. */
  lemma {:induction false} EachTwice(f: Act, spots: seq<nat>, b: seq<Byte>)
    requires Swaps(f)
    requires forall k, l :: 0 <= k < |spots| && 0 <= l < |spots| ==> Compatible(spots[k], spots[l])
    ensures Each(f, spots, Each(f, spots, b)) == b
  {
    if spots != [] {
      var m := |spots| - 1;
      var rest, p := spots[..m], spots[m];
      var r := Each(f, rest, b);
      EachTwice(f, rest, b);
      EachCommutes(f, rest, p, r);
      SwapTwice(f, b, p);
    }
  }

  lemma {:induction false} EachMisses(f: Act, spots: seq<nat>, b: seq<Byte>, x: nat)
    requires Swaps(f) && x < |b| && forall k :: 0 <= k < |spots| ==> spots[k] != x && spots[k] + 1 != x
    ensures |Each(f, spots, b)| == |b| && Each(f, spots, b)[x] == b[x]
  {
    if spots != [] {
      var m := |spots| - 1;
      EachMisses(f, spots[..m], b, x);
      assert IsSwap(f, Each(f, spots[..m], b), spots[m]);
    }
  }

  // ---------------------------------------------------------------- the plans of all areas

  /** The shorts of the first `n` plans of the area at `q`. */
  function PlanSpots(n: nat, q: nat): seq<nat> {
    if n == 0 then [] else PlanSpots(n - 1, q) + [q + PLAN_SIZE * (n - 1) + 7] + [q + PLAN_SIZE * (n - 1) + 9]
  }

  function AreaSpots(counts: seq<Byte>): seq<nat> {
    if counts == [] then []
    else AreaSpots(counts[..|counts| - 1]) + PlanSpots(counts[|counts| - 1], ENTRY_SIZE * (|counts| - 1))
  }

  lemma {:induction false} PlansAreEach(f: Act, n: nat, q: nat, b: seq<Byte>)
    ensures PlansOf(f, n, q, b) == Each(f, PlanSpots(n, q), b)
  {
    if n > 0 {
      var m := n - 1;
      var spots, p := PlanSpots(m, q), q + PLAN_SIZE * m + 7;
      PlansAreEach(f, m, q, b);
      EachSnoc(f, spots, p, b);
      EachSnoc(f, spots + [p], p + 2, b);
    }
  }

  /** The short at `p` is one of plan `i` of area `j`. */
  predicate SpotOf(p: nat, j: nat, i: nat) {
    p == ENTRY_SIZE * j + PLAN_SIZE * i + 7 || p == ENTRY_SIZE * j + PLAN_SIZE * i + 9
  }

  ghost predicate IsSpot(counts: seq<Byte>, p: nat) {
    exists j: nat, i: nat :: j < |counts| && i < counts[j] && SpotOf(p, j, i)
  }

  lemma {:induction false} PlanSpotsAre(n: nat, j: nat, k: nat)
    requires k < |PlanSpots(n, ENTRY_SIZE * j)|
    ensures exists i: nat :: i < n && SpotOf(PlanSpots(n, ENTRY_SIZE * j)[k], j, i)
  {
    if k < |PlanSpots(n - 1, ENTRY_SIZE * j)| {
      PlanSpotsAre(n - 1, j, k);
      var i: nat :| i < n - 1 && SpotOf(PlanSpots(n - 1, ENTRY_SIZE * j)[k], j, i);
      assert PlanSpots(n, ENTRY_SIZE * j)[k] == PlanSpots(n - 1, ENTRY_SIZE * j)[k];
    } else {
      assert SpotOf(PlanSpots(n, ENTRY_SIZE * j)[k], j, n - 1);
    }
  }

  lemma {:induction false} AreaSpotsAre(counts: seq<Byte>, k: nat)
    requires k < |AreaSpots(counts)|
    ensures IsSpot(counts, AreaSpots(counts)[k])
  {
    var m := |counts| - 1;
    var before := AreaSpots(counts[..m]);
    if k < |before| {
      AreaSpotsAre(counts[..m], k);
      var j: nat, i: nat :| j < m && i < counts[..m][j] && SpotOf(before[k], j, i);
      assert i < counts[j];
    } else {
      PlanSpotsAre(counts[m], m, k - |before|);
      var i: nat :| i < counts[m] && SpotOf(AreaSpots(counts)[k], m, i);
    }
  }

  /** The most plans an area may claim before its conversion reaches the plan count of the
      third area after it. */
  const PLAN_LIMIT := 144

  predicate Contained(counts: seq<Byte>) {
    |counts| <= PERSON_AREAS_MAX && forall j :: 0 <= j < |counts| && j + 3 < PERSON_AREAS_MAX ==> counts[j] <= PLAN_LIMIT
  }

  /** Within that limit two areas that overlap list the same shorts, or shorts apart ... */
  lemma {:induction false} SpotsAreCompatible(p: nat, j: nat, i: nat, q: nat, k: nat, l: nat)
    requires SpotOf(p, j, i) && SpotOf(q, k, l) && j <= k < PERSON_AREAS_MAX
    requires j + 3 < PERSON_AREAS_MAX ==> i < PLAN_LIMIT
    ensures Compatible(p, q)
  {
    if k == j {
    } else if k == j + 1 {
    } else if k == j + 2 {
    } else {
      assert p + 2 <= q;
    }
  }

  /** ... and none of them is a plan count. */
  lemma {:induction false} SpotsMissCounts(p: nat, j: nat, i: nat, k: nat)
    requires SpotOf(p, j, i) && j < PERSON_AREAS_MAX && k < PERSON_AREAS_MAX
    requires j + 3 < PERSON_AREAS_MAX ==> i < PLAN_LIMIT
    ensures p != ENTRY_SIZE * k + 1 && p + 1 != ENTRY_SIZE * k + 1
  {
    if k == j + 1 {
    } else if k == j + 2 {
    } else if k >= j + 3 {
      assert p + 1 < ENTRY_SIZE * k + 1;
    }
  }

  /** The plan counts of the first `n` areas. */
  function Counts(n: nat, b: seq<Byte>): (r: seq<Byte>)
    ensures |r| == n && forall j :: 0 <= j < n ==> r[j] == PlanTotal(b, j)
  {
    if n == 0 then [] else Counts(n - 1, b) + [PlanTotal(b, n - 1)]
  }

  lemma {:induction false} CountsMissed(f: Act, counts: seq<Byte>, b: seq<Byte>, k: nat)
    requires Swaps(f) && Contained(counts) && k < PERSON_AREAS_MAX
    ensures PlanTotal(Each(f, AreaSpots(counts), b), k) == PlanTotal(b, k)
  {
    var spots := AreaSpots(counts);
    forall l | 0 <= l < |spots| ensures spots[l] != ENTRY_SIZE * k + 1 && spots[l] + 1 != ENTRY_SIZE * k + 1 {
      AreaSpotsAre(counts, l);
      var j: nat, i: nat :| j < |counts| && i < counts[j] && SpotOf(spots[l], j, i);
      SpotsMissCounts(spots[l], j, i, k);
    }
    EachLength(f, spots, b);
    if ENTRY_SIZE * k + 1 < |b| {
      EachMisses(f, spots, b, ENTRY_SIZE * k + 1);
    }
  }

  /** Within the limit the counts stay where they are, and the areas are one list of shorts. */
  lemma {:induction false} AreasAreEach(f: Act, n: nat, b: seq<Byte>)
    requires Swaps(f) && n <= PERSON_AREAS_MAX && Contained(Counts(n, b))
    ensures Areas(f, n, b) == Each(f, AreaSpots(Counts(n, b)), b)
  {
    if n > 0 {
      var m := n - 1;
      var counts, t := Counts(m, b), Areas(f, m, b);
      AreasAreEach(f, m, b);
      CountsMissed(f, counts, b, m);
      AreaIsEach(f, counts, PlanTotal(b, m), b, t);
      AreasNext(f, m, b, t);
      assert Counts(n, b) == counts + [PlanTotal(b, m)];
    }
  }

  lemma {:induction false} AreaIsEach(f: Act, counts: seq<Byte>, count: Byte, b: seq<Byte>, t: seq<Byte>)
    requires t == Each(f, AreaSpots(counts), b)
    ensures PlansOf(f, count, ENTRY_SIZE * |counts|, t) == Each(f, AreaSpots(counts + [count]), b)
  {
    var more := PlanSpots(count, ENTRY_SIZE * |counts|);
    PlansAreEach(f, count, ENTRY_SIZE * |counts|, t);
    EachConcat(f, AreaSpots(counts), more, b);
    assert (counts + [count])[..|counts|] == counts;
  }

  lemma {:induction false} AreasNext(f: Act, n: nat, b: seq<Byte>, t: seq<Byte>)
    requires t == Areas(f, n, b)
    ensures Areas(f, n + 1, b) == PlansOf(f, PlanTotal(t, n), ENTRY_SIZE * n, t)
  {
  }

  lemma {:induction false} AllCompatible(counts: seq<Byte>, k: nat, l: nat)
    requires Contained(counts) && k < |AreaSpots(counts)| && l < |AreaSpots(counts)|
    ensures Compatible(AreaSpots(counts)[k], AreaSpots(counts)[l])
  {
    var p, q := AreaSpots(counts)[k], AreaSpots(counts)[l];
    AreaSpotsAre(counts, k);
    AreaSpotsAre(counts, l);
    var j: nat, i: nat :| j < |counts| && i < counts[j] && SpotOf(p, j, i);
    var j': nat, i': nat :| j' < |counts| && i' < counts[j'] && SpotOf(q, j', i');
    if j <= j' {
      SpotsAreCompatible(p, j, i, q, j', i');
    } else {
      SpotsAreCompatible(q, j', i', p, j, i);
    }
  }

  lemma {:induction false} AreasTwice(f: Act, n: nat, b: seq<Byte>)
    requires Swaps(f) && n <= PERSON_AREAS_MAX && Contained(Counts(n, b))
    ensures var r := Areas(f, n, b);
      |r| == |b| && Counts(n, r) == Counts(n, b) && Areas(f, n, r) == b
  {
    var counts, r := Counts(n, b), Areas(f, n, b);
    AreasAreEach(f, n, b);
    EachLength(f, AreaSpots(counts), b);
    forall k | 0 <= k < n ensures PlanTotal(r, k) == PlanTotal(b, k) {
      CountsMissed(f, counts, b, k);
    }
    assert Counts(n, r) == counts;
    AreasAreEach(f, n, r);
    forall k, l | 0 <= k < |AreaSpots(counts)| && 0 <= l < |AreaSpots(counts)|
      ensures Compatible(AreaSpots(counts)[k], AreaSpots(counts)[l])
    {
      AllCompatible(counts, k, l);
    }
    EachTwice(f, AreaSpots(counts), b);
  }

  /** Within the limit converting the message twice recovers it, also where areas claim more
      plans than they have room for. */
  lemma {:induction false} TimesTwice(b: seq<Byte>)
    requires Contained(Counts(PERSON_AREAS_MAX, b))
    ensures |Times(b)| == |b| && Counts(PERSON_AREAS_MAX, Times(b)) == Counts(PERSON_AREAS_MAX, b) && Times(Times(b)) == b
  {
    FlipAtSwaps();
    AreasTwice(FlipAt, PERSON_AREAS_MAX, b);
  }

  // ---------------------------------------------------------------- byte by byte

  /** A plan's two shorts are its last four bytes. */
  function PlanMirror(d: nat): (e: nat)
    requires d < PLAN_SIZE
    ensures e < PLAN_SIZE
  {
    if d < 5 then d else if d == 5 || d == 7 then d + 1 else d - 1
  }

  lemma {:induction false} PlansLength(f: Act, n: nat, q: nat, b: seq<Byte>)
    requires Swaps(f)
    ensures |PlansOf(f, n, q, b)| == |b|
  {
    PlansAreEach(f, n, q, b);
    EachLength(f, PlanSpots(n, q), b);
  }

  /** One plan at `p`. */
  lemma {:induction false} PlanSwaps(f: Act, t: seq<Byte>, p: nat, d: nat)
    requires Swaps(f) && p + PLAN_SIZE <= |t| && d < PLAN_SIZE
    ensures var r := f(f(t, p + 5), p + 7);
      |r| == |t| && r[p + d] == t[p + PlanMirror(d)]
  {
    assert IsSwap(f, t, p + 5) && IsSwap(f, f(t, p + 5), p + 7);
  }

  lemma {:induction false} PlanMisses(f: Act, t: seq<Byte>, p: nat, x: nat)
    requires Swaps(f) && x < |t| && (x < p + 5 || x >= p + PLAN_SIZE)
    ensures var r := f(f(t, p + 5), p + 7);
      |r| == |t| && r[x] == t[x]
  {
    assert IsSwap(f, t, p + 5) && IsSwap(f, f(t, p + 5), p + 7);
  }

  lemma {:induction false} PlansStay(f: Act, n: nat, q: nat, b: seq<Byte>, x: nat)
    requires Swaps(f) && x < |b| && (x < q + 7 || x >= q + 2 + PLAN_SIZE * n)
    ensures |PlansOf(f, n, q, b)| == |b| && PlansOf(f, n, q, b)[x] == b[x]
  {
    if n > 0 {
      PlansStay(f, n - 1, q, b, x);
      PlanMisses(f, PlansOf(f, n - 1, q, b), q + 2 + PLAN_SIZE * (n - 1), x);
    }
  }

  lemma {:induction false} PlansAt(f: Act, n: nat, q: nat, b: seq<Byte>, i: nat, d: nat)
    requires Swaps(f) && q + 2 + PLAN_SIZE * (i + 1) <= |b| && d < PLAN_SIZE
    ensures var p := q + 2 + PLAN_SIZE * i;
      |PlansOf(f, n, q, b)| == |b| && PlansOf(f, n, q, b)[p + d] == b[p + if i < n then PlanMirror(d) else d]
  {
    if n > 0 {
      var m := n - 1;
      var t, p := PlansOf(f, m, q, b), q + 2 + PLAN_SIZE * m;
      PlansAt(f, m, q, b, i, d);
      if i == m {
        PlansAt(f, m, q, b, i, PlanMirror(d));
        PlanSwaps(f, t, p, d);
      } else {
        PlanMisses(f, t, p, q + 2 + PLAN_SIZE * i + d);
      }
    }
  }

  /** None of the first `areas` areas claims more plans than its entry has room for. */
  predicate Fitting(counts: seq<Byte>, areas: nat) {
    forall j :: 0 <= j < |counts| && j < areas ==> counts[j] <= PLAN_MAX
  }

  lemma {:induction false} CountsStay(f: Act, n: nat, b: seq<Byte>, k: nat)
    requires Swaps(f) && n <= PERSON_AREAS_MAX && Contained(Counts(n, b)) && k < PERSON_AREAS_MAX
    ensures |Areas(f, n, b)| == |b| && PlanTotal(Areas(f, n, b), k) == PlanTotal(b, k)
  {
    AreasAreEach(f, n, b);
    EachLength(f, AreaSpots(Counts(n, b)), b);
    CountsMissed(f, Counts(n, b), b, k);
  }

  lemma {:induction false} FittingBefore(n: nat, b: seq<Byte>, areas: nat)
    requires n < PERSON_AREAS_MAX && PERSON_AREAS_MAX - 1 <= areas && Fitting(Counts(n + 1, b), areas)
    ensures Fitting(Counts(n, b), areas) && Contained(Counts(n, b)) && (n < areas ==> PlanTotal(b, n) <= PLAN_MAX)
  {
    assert Counts(n + 1, b)[n] == PlanTotal(b, n);
    assert forall j :: 0 <= j < n ==> Counts(n, b)[j] == Counts(n + 1, b)[j];
  }

  /** Where every entry with another behind it has room, byte `d` of plan `i` of area `j` comes
      from that plan. */
  lemma {:induction false} AreasAt(f: Act, n: nat, b: seq<Byte>, j: nat, i: nat, d: nat)
    requires Swaps(f) && n <= PERSON_AREAS_MAX && ENTRY_SIZE * PERSON_AREAS_MAX <= |b|
    requires Fitting(Counts(n, b), PERSON_AREAS_MAX - 1)
    requires j < PERSON_AREAS_MAX && i < PLAN_MAX && d < PLAN_SIZE
    ensures var p := ENTRY_SIZE * j + 2 + PLAN_SIZE * i;
      && |Areas(f, n, b)| == |b|
      && Areas(f, n, b)[p + d] == b[p + if j < n && i < PlanTotal(b, j) then PlanMirror(d) else d]
  {
    if n > 0 {
      var m := n - 1;
      var t, count := Areas(f, m, b), PlanTotal(b, m);
      FittingBefore(m, b, PERSON_AREAS_MAX - 1);
      AreasAt(f, m, b, j, i, d);
      AreasAt(f, m, b, j, i, PlanMirror(d));
      CountsStay(f, m, b, m);
      AreaAt(f, m, count, t, j, i, d);
      AreasNext(f, m, b, t);
    }
  }

  lemma {:induction false} AreaAt(f: Act, m: nat, count: nat, t: seq<Byte>, j: nat, i: nat, d: nat)
    requires Swaps(f) && ENTRY_SIZE * (j + 1) <= |t| && i < PLAN_MAX && d < PLAN_SIZE
    requires count <= PLAN_MAX || j <= m
    ensures var p, r := ENTRY_SIZE * j + 2 + PLAN_SIZE * i, PlansOf(f, count, ENTRY_SIZE * m, t);
      |r| == |t| && r[p + d] == t[p + if j == m && i < count then PlanMirror(d) else d]
  {
    if j == m {
      PlansAt(f, count, ENTRY_SIZE * m, t, i, d);
    } else {
      PlansStay(f, count, ENTRY_SIZE * m, t, ENTRY_SIZE * j + 2 + PLAN_SIZE * i + d);
    }
  }

  /** The first two bytes of every entry stay, and all behind the message if the last area
      has room too. */
  lemma {:induction false} AreasStay(f: Act, n: nat, b: seq<Byte>, areas: nat, j: nat, x: nat)
    requires Swaps(f) && n <= PERSON_AREAS_MAX && PERSON_AREAS_MAX - 1 <= areas <= PERSON_AREAS_MAX && Fitting(Counts(n, b), areas)
    requires x < |b| && j <= areas && ENTRY_SIZE * j <= x && (x < ENTRY_SIZE * j + 2 || j == PERSON_AREAS_MAX)
    ensures |Areas(f, n, b)| == |b| && Areas(f, n, b)[x] == b[x]
  {
    if n > 0 {
      var m := n - 1;
      FittingBefore(m, b, areas);
      AreasStay(f, m, b, areas, j, x);
      CountsStay(f, m, b, m);
      PlansStay(f, PlanTotal(b, m), ENTRY_SIZE * m, Areas(f, m, b), x);
    }
  }

  // ---------------------------------------------------------------- the neighbours stay

  /** Byte `x` of the buffer is one of the last four of a plan that counts, in the entry of
      the area that claims it. */
  predicate Claimed(counts: seq<Byte>, x: nat) {
    && x / ENTRY_SIZE < |counts| && x % ENTRY_SIZE >= 2
    && (x % ENTRY_SIZE - 2) / PLAN_SIZE < counts[x / ENTRY_SIZE] && (x % ENTRY_SIZE - 2) % PLAN_SIZE >= 5
  }

  /** The first `size` bytes that nobody claims stay. */
  ghost predicate OthersStay(counts: seq<Byte>, b: seq<Byte>, r: seq<Byte>, size: nat) {
    |r| == |b| && forall x :: 0 <= x < |b| && x < size && !Claimed(counts, x) ==> r[x] == b[x]
  }

  /** Messages with these counts. */
  ghost predicate Claims(counts: seq<Byte>, b: seq<Byte>) {
    REACH <= |b| && Counts(PERSON_AREAS_MAX, b) == counts
  }

  const TIMES_SIZE := ENTRY_SIZE * PERSON_AREAS_MAX

  lemma {:induction false} OtherStays(f: Act, n: nat, b: seq<Byte>, areas: nat, x: nat)
    requires Swaps(f) && n == PERSON_AREAS_MAX && PERSON_AREAS_MAX - 1 <= areas <= PERSON_AREAS_MAX
    requires TIMES_SIZE <= |b| && Fitting(Counts(n, b), areas) && x < |b| && !Claimed(Counts(n, b), x)
    requires areas < PERSON_AREAS_MAX ==> x < TIMES_SIZE
    ensures |Areas(f, n, b)| == |b| && Areas(f, n, b)[x] == b[x]
  {
    var j, e := x / ENTRY_SIZE, x % ENTRY_SIZE;
    if x >= TIMES_SIZE {
      AreasStay(f, n, b, areas, PERSON_AREAS_MAX, x);
    } else if e < 2 {
      AreasStay(f, n, b, areas, j, x);
    } else {
      var i, d := (e - 2) / PLAN_SIZE, (e - 2) % PLAN_SIZE;
      assert x == ENTRY_SIZE * j + 2 + PLAN_SIZE * i + d;
      AreasAt(f, n, b, j, i, d);
    }
  }

  /** The first areas keep clear of what lies behind the plans they claim. */
  lemma {:induction false} EarlyMiss(f: Act, n: nat, b: seq<Byte>, room: nat, x: nat)
    requires Swaps(f) && n <= PERSON_AREAS_MAX && Below(n, room, b) && room <= PLAN_LIMIT
    requires x < |b| && (n > 0 ==> ENTRY_SIZE * (n - 1) + 2 + PLAN_SIZE * room <= x)
    ensures |Areas(f, n, b)| == |b| && Areas(f, n, b)[x] == b[x]
  {
    if n > 0 {
      var m := n - 1;
      EarlyMiss(f, m, b, room, x);
      CountsStay(f, m, b, m);
      PlansStay(f, PlanTotal(b, m), ENTRY_SIZE * m, Areas(f, m, b), x);
    }
  }

  /** The first `n` areas claim no more than `room` plans each. */
  ghost predicate Below(n: nat, room: nat, b: seq<Byte>) {
    forall k :: 0 <= k < n ==> PlanTotal(b, k) <= room
  }

  /** The areas from `n` on keep clear of what lies before the plans of area `n`. */
  lemma {:induction false} LaterMiss(f: Act, n: nat, m: nat, b: seq<Byte>, t: seq<Byte>, x: nat)
    requires Swaps(f) && n <= m && t == Areas(f, n, b) && x < |t| && x < ENTRY_SIZE * n + 7
    ensures |Areas(f, m, b)| == |t| && Areas(f, m, b)[x] == t[x]
  {
    if n < m {
      LaterMiss(f, n, m - 1, b, t, x);
      PlansStay(f, PlanTotal(Areas(f, m - 1, b), m - 1), ENTRY_SIZE * (m - 1), Areas(f, m - 1, b), x);
    }
  }

  /** Area `j` is the first that claims more than `room` plans. */
  ghost predicate FirstAbove(j: nat, room: nat, b: seq<Byte>) {
    && j < PERSON_AREAS_MAX && PlanTotal(b, j) > room
    && Below(j, room, b)
  }

  /** The areas before it, and the area itself. */
  lemma {:induction false} UpToFirst(f: Act, j: nat, room: nat, b: seq<Byte>, s: seq<Byte>)
    requires Swaps(f) && FirstAbove(j, room, b) && room <= PLAN_LIMIT && s == Areas(f, j, b)
    ensures |s| == |b| && forall k :: 0 <= k < PERSON_AREAS_MAX ==> PlanTotal(s, k) == PlanTotal(b, k)
    ensures forall x :: 0 <= x < |b| && ENTRY_SIZE * (j - 1) + 2 + PLAN_SIZE * room <= x ==> s[x] == b[x]
    ensures Areas(f, j + 1, b) == PlansOf(f, PlanTotal(b, j), ENTRY_SIZE * j, s)
  {
    CountsStay(f, j, b, j);
    forall x | 0 <= x < |b| && ENTRY_SIZE * (j - 1) + 2 + PLAN_SIZE * room <= x ensures Areas(f, j, b)[x] == b[x] {
      EarlyMiss(f, j, b, room, x);
    }
    forall k | 0 <= k < PERSON_AREAS_MAX ensures PlanTotal(s, k) == PlanTotal(b, k) {
      CountsStay(f, j, b, k);
    }
    AreasNext(f, j, b, s);
  }

  /** The first area that claims more plans than it has room for spills into the next entry,
      or behind the message: it swaps the limits of persons and of waiting time in the next
      area's first plan, in every message. */
  lemma {:induction false} Spills(f: Act, j: nat, b: seq<Byte>, end: nat)
    requires Swaps(f) && REACH <= |b| && FirstAbove(j, PLAN_MAX, b) && end == PERSON_AREAS_MAX
    ensures var q, r := ENTRY_SIZE * (j + 1), Areas(f, end, b);
      |r| == |b| && r[q + 5] == b[q + 6] && r[q + 6] == b[q + 5]
  {
    var q := ENTRY_SIZE * (j + 1);
    SpillsOnce(f, j, b, Areas(f, j, b));
    LaterMiss(f, j + 1, end, b, Areas(f, j + 1, b), q + 5);
    LaterMiss(f, j + 1, end, b, Areas(f, j + 1, b), q + 6);
  }

  lemma {:induction false} SpillsOnce(f: Act, j: nat, b: seq<Byte>, s: seq<Byte>)
    requires Swaps(f) && REACH <= |b| && FirstAbove(j, PLAN_MAX, b) && s == Areas(f, j, b)
    ensures var q, t := ENTRY_SIZE * (j + 1), Areas(f, j + 1, b);
      |t| == |b| && t[q + 5] == b[q + 6] && t[q + 6] == b[q + 5]
  {
    UpToFirst(f, j, PLAN_MAX, b, s);
    PlansAt(f, PlanTotal(b, j), ENTRY_SIZE * j, s, PLAN_MAX, 5);
    PlansAt(f, PlanTotal(b, j), ENTRY_SIZE * j, s, PLAN_MAX, 6);
  }

  function Zeros(n: nat): (r: seq<Byte>)
    ensures |r| == n && forall x :: 0 <= x < n ==> r[x] == 0
  {
    if n == 0 then [] else Zeros(n - 1) + [0]
  }

  /** A message with these counts, and zero everywhere else. */
  function Message(counts: seq<Byte>): (b: seq<Byte>)
    requires |counts| == PERSON_AREAS_MAX
    ensures Claims(counts, b) && |b| == REACH
    ensures forall x :: 0 <= x < REACH && x % ENTRY_SIZE != 1 ==> b[x] == 0
  {
    var b := Zeros(REACH)[1 := counts[0]][435 := counts[1]][869 := counts[2]][1303 := counts[3]]
      [1737 := counts[4]][2171 := counts[5]][2605 := counts[6]][3039 := counts[7]];
    assert Counts(PERSON_AREAS_MAX, b) == counts;
    b
  }

  lemma {:induction false} Marked(counts: seq<Byte>, b: seq<Byte>, x: nat, v: Byte)
    requires Claims(counts, b) && x < |b| && x % ENTRY_SIZE != 1
    ensures Claims(counts, b[x := v])
  {
    forall k | 0 <= k < PERSON_AREAS_MAX ensures PlanTotal(b[x := v], k) == PlanTotal(b, k) {
      assert (ENTRY_SIZE * k + 1) % ENTRY_SIZE == 1;
    }
    assert Counts(PERSON_AREAS_MAX, b[x := v]) == Counts(PERSON_AREAS_MAX, b);
  }

  lemma {:induction false} SpillShows(counts: seq<Byte>, j: nat)
    requires |counts| == PERSON_AREAS_MAX && IsFirst(counts, PLAN_MAX, j)
    ensures var x, b := ENTRY_SIZE * (j + 1) + 5, Message(counts)[ENTRY_SIZE * (j + 1) + 5 := 1];
      Claims(counts, b) && !Claimed(counts, x) && |Times(b)| == |b| && Times(b)[x] != b[x]
  {
    var x := ENTRY_SIZE * (j + 1) + 5;
    var b := Message(counts)[x := 1];
    assert x % ENTRY_SIZE == 5 && (x + 1) % ENTRY_SIZE == 6;
    Marked(counts, Message(counts), x, 1);
    FirstInMessage(counts, PLAN_MAX, j, b);
    SpillsTimes(j, b);
  }

  lemma {:induction false} SpillsTimes(j: nat, b: seq<Byte>)
    requires REACH <= |b| && FirstAbove(j, PLAN_MAX, b)
    ensures |Times(b)| == |b| && Times(b)[ENTRY_SIZE * (j + 1) + 5] == b[ENTRY_SIZE * (j + 1) + 6]
  {
    FlipAtSwaps();
    Spills(FlipAt, j, b, PERSON_AREAS_MAX);
  }

  /** Area `j` is the first whose count is above `room`. */
  predicate IsFirst(counts: seq<Byte>, room: nat, j: nat) {
    j < |counts| && counts[j] > room && forall k :: 0 <= k < j ==> counts[k] <= room
  }

  lemma {:induction false} FirstInMessage(counts: seq<Byte>, room: nat, j: nat, b: seq<Byte>)
    requires |counts| == PERSON_AREAS_MAX && IsFirst(counts, room, j) && Claims(counts, b)
    ensures FirstAbove(j, room, b) && forall k :: 0 <= k < PERSON_AREAS_MAX ==> PlanTotal(b, k) == counts[k]
  {
    assert forall k :: 0 <= k < PERSON_AREAS_MAX ==> Counts(PERSON_AREAS_MAX, b)[k] == PlanTotal(b, k);
  }

  lemma {:induction false} FindFirst(counts: seq<Byte>, room: nat, k: nat) returns (j: nat)
    requires k < |counts| && counts[k] > room
    ensures j <= k && IsFirst(counts, room, j)
  {
    j := 0;
    while counts[j] <= room
      invariant j <= k && forall l :: 0 <= l < j ==> counts[l] <= room
      decreases k - j
    {
      j := j + 1;
    }
  }

  lemma {:induction false} FittingSuffices(counts: seq<Byte>, areas: nat, b: seq<Byte>)
    requires PERSON_AREAS_MAX - 1 <= areas <= PERSON_AREAS_MAX && Fitting(counts, areas) && Claims(counts, b)
    ensures OthersStay(counts, b, Times(b), if areas == PERSON_AREAS_MAX then |b| else TIMES_SIZE)
  {
    FlipAtSwaps();
    TimesLength(b);
    forall x | 0 <= x < |b| && !Claimed(counts, x) && (areas < PERSON_AREAS_MAX ==> x < TIMES_SIZE) ensures Times(b)[x] == b[x] {
      OtherStays(FlipAt, PERSON_AREAS_MAX, b, areas, x);
    }
  }

  lemma {:induction false} FittingIsNeeded(counts: seq<Byte>, k: nat) returns (b: seq<Byte>)
    requires |counts| == PERSON_AREAS_MAX && k < PERSON_AREAS_MAX && counts[k] > PLAN_MAX
    ensures Claims(counts, b) && !OthersStay(counts, b, Times(b), |b|)
    ensures k < PERSON_AREAS_MAX - 1 ==> !OthersStay(counts, b, Times(b), TIMES_SIZE)
  {
    var j := FindFirst(counts, PLAN_MAX, k);
    var x := ENTRY_SIZE * (j + 1) + 5;
    b := Message(counts)[x := 1];
    SpillShows(counts, j);
    var r := Times(b);
    assert x < |b| && !Claimed(counts, x) && |r| == |b| && r[x] != b[x];
  }

  /** For all counts: the messages with these counts leave every other byte of the buffer
      alone if and only if every entry has room for its plans; and every other byte of the
      message, if and only if every entry with another behind it has. */
  lemma {:induction false} NeighboursStay(counts: seq<Byte>)
    requires |counts| == PERSON_AREAS_MAX
    ensures (forall b :: Claims(counts, b) ==> OthersStay(counts, b, Times(b), |b|)) <==> Fitting(counts, PERSON_AREAS_MAX)
    ensures (forall b :: Claims(counts, b) ==> OthersStay(counts, b, Times(b), TIMES_SIZE))
      <==> Fitting(counts, PERSON_AREAS_MAX - 1)
  {
    forall b | Claims(counts, b) && Fitting(counts, PERSON_AREAS_MAX) ensures OthersStay(counts, b, Times(b), |b|) {
      FittingSuffices(counts, PERSON_AREAS_MAX, b);
    }
    forall b | Claims(counts, b) && Fitting(counts, PERSON_AREAS_MAX - 1) ensures OthersStay(counts, b, Times(b), TIMES_SIZE) {
      FittingSuffices(counts, PERSON_AREAS_MAX - 1, b);
    }
    if k :| 0 <= k < PERSON_AREAS_MAX - 1 && counts[k] > PLAN_MAX {
      var b := FittingIsNeeded(counts, k);
    } else if counts[PERSON_AREAS_MAX - 1] > PLAN_MAX {
      var b := FittingIsNeeded(counts, PERSON_AREAS_MAX - 1);
    }
  }

  lemma {:induction false} TimesLength(b: seq<Byte>)
    ensures |Times(b)| == |b|
  {
    FlipAtSwaps();
    AreasLength(FlipAt, PERSON_AREAS_MAX, b);
  }

  lemma {:induction false} AreasLength(f: Act, n: nat, b: seq<Byte>)
    requires Swaps(f)
    ensures |Areas(f, n, b)| == |b|
  {
    if n > 0 {
      AreasLength(f, n - 1, b);
      PlansLength(f, PlanTotal(Areas(f, n - 1, b), n - 1), ENTRY_SIZE * (n - 1), Areas(f, n - 1, b));
    }
  }

  // ---------------------------------------------------------------- the limit is exact

  /** What a pass does to the count of the third area after `j`, at `q + 1`, to the byte behind
      it, and to the first short of that area's plans, `q + 7`: step by step. */
  ghost predicate Moved(b: seq<Byte>, r: seq<Byte>, q: nat, count: bool, short: bool) {
    && |r| == |b| && q + 9 <= |b|
    && r[q + 1] == b[if count then q + 2 else q + 1] && r[q + 2] == b[if count then q + 1 else q + 2]
    && r[q + 7] == b[if short then q + 8 else q + 7] && r[q + 8] == b[if short then q + 7 else q + 8]
  }

  /** Area `j` itself swaps the count with the byte behind it ... */
  lemma {:induction false} PassFirst(f: Act, j: nat, n: Byte, s: seq<Byte>)
    requires Swaps(f) && j + 3 < PERSON_AREAS_MAX && REACH <= |s| && n > PLAN_LIMIT
    ensures var q, t := ENTRY_SIZE * (j + 3), PlansOf(f, n, ENTRY_SIZE * j, s);
      Moved(s, t, q, true, false) && PlanTotal(t, j + 1) == PlanTotal(s, j + 1) && PlanTotal(t, j + 2) == PlanTotal(s, j + 2)
  {
    var q := ENTRY_SIZE * j;
    PlansAt(f, n, q, s, PLAN_LIMIT, 5);
    PlansAt(f, n, q, s, PLAN_LIMIT, 6);
    PlansAt(f, n, q, s, PLAN_LIMIT + 1, 2);
    PlansAt(f, n, q, s, PLAN_LIMIT + 1, 3);
    PlansAt(f, n, q, s, PLAN_MAX, 1);
    PlansAt(f, n, q, s, 2 * PLAN_MAX, 3);
  }

  /** ... the next one leaves all four bytes alone ... */
  lemma {:induction false} PassSecond(f: Act, j: nat, n: Byte, s: seq<Byte>)
    requires Swaps(f) && j + 3 < PERSON_AREAS_MAX && REACH <= |s|
    ensures var q, t := ENTRY_SIZE * (j + 3), PlansOf(f, n, ENTRY_SIZE * (j + 1), s);
      Moved(s, t, q, false, false) && PlanTotal(t, j + 2) == PlanTotal(s, j + 2)
  {
    var q := ENTRY_SIZE * (j + 1);
    PlansAt(f, n, q, s, 2 * PLAN_MAX, 3);
    PlansAt(f, n, q, s, 2 * PLAN_MAX, 4);
    PlansAt(f, n, q, s, 2 * PLAN_MAX + 1, 0);
    PlansAt(f, n, q, s, 2 * PLAN_MAX + 1, 1);
    PlansAt(f, n, q, s, PLAN_MAX, 1);
  }

  /** ... the second swaps the short if it claims more plans than it has room for ... */
  lemma {:induction false} PassThird(f: Act, j: nat, n: Byte, s: seq<Byte>)
    requires Swaps(f) && j + 3 < PERSON_AREAS_MAX && REACH <= |s|
    ensures Moved(s, PlansOf(f, n, ENTRY_SIZE * (j + 2), s), ENTRY_SIZE * (j + 3), false, n > PLAN_MAX)
  {
    var q := ENTRY_SIZE * (j + 2);
    PlansAt(f, n, q, s, PLAN_MAX, 1);
    PlansAt(f, n, q, s, PLAN_MAX, 2);
    PlansAt(f, n, q, s, PLAN_MAX, 7);
    PlansAt(f, n, q, s, PLAN_MAX, 8);
  }

  /** ... and the third if it finds a count. */
  lemma {:induction false} PassFourth(f: Act, q: nat, n: Byte, s: seq<Byte>)
    requires Swaps(f) && q + 11 <= |s|
    ensures Moved(s, PlansOf(f, n, q, s), q, false, n > 0)
  {
    PlansStay(f, n, q, s, q + 1);
    PlansAt(f, n, q, s, 0, 0);
    PlansAt(f, n, q, s, 0, 5);
    PlansAt(f, n, q, s, 0, 6);
  }

  lemma {:induction false} MovedTwice(b: seq<Byte>, t: seq<Byte>, u: seq<Byte>, q: nat, count: bool, short: bool, short': bool)
    requires Moved(b, t, q, count, short) && Moved(t, u, q, false, short')
    ensures Moved(b, u, q, count, short != short')
  {
  }

  /** The areas up to the next after the first above the limit ... */
  lemma {:induction false} PassTwo(f: Act, j: nat, b: seq<Byte>, s: seq<Byte>, t: seq<Byte>, u: seq<Byte>)
    requires Swaps(f) && REACH <= |b| && FirstAbove(j, PLAN_LIMIT, b) && j + 3 < PERSON_AREAS_MAX
    requires s == Areas(f, j, b) && t == Areas(f, j + 1, b) && u == Areas(f, j + 2, b)
    ensures |s| == |u| == |b| && Moved(b, u, ENTRY_SIZE * (j + 3), true, false)
    ensures PlanTotal(u, j + 2) == PlanTotal(b, j + 2) && forall k :: 0 <= k <= j ==> PlanTotal(s, k) == PlanTotal(b, k)
  {
    var q := ENTRY_SIZE * (j + 3);
    UpToFirst(f, j, PLAN_LIMIT, b, s);
    PassFirst(f, j, PlanTotal(b, j), s);
    assert Moved(b, t, q, true, false);
    AreasNext(f, j + 1, b, t);
    PassSecond(f, j, PlanTotal(t, j + 1), t);
    MovedTwice(b, t, u, q, true, false, false);
  }

  /** ... and up to the third. */
  lemma {:induction false} PassFour(f: Act, j: nat, b: seq<Byte>, u: seq<Byte>, v: seq<Byte>, w: seq<Byte>)
    requires Swaps(f) && REACH <= |b| && j + 3 < PERSON_AREAS_MAX && Moved(b, u, ENTRY_SIZE * (j + 3), true, false)
    requires u == Areas(f, j + 2, b) && v == Areas(f, j + 3, b) && w == Areas(f, j + 4, b)
    requires PlanTotal(u, j + 2) == PlanTotal(b, j + 2)
    ensures Moved(b, w, ENTRY_SIZE * (j + 3), true, (PlanTotal(b, j + 2) > PLAN_MAX) != (b[ENTRY_SIZE * (j + 3) + 2] > 0))
  {
    var q, third := ENTRY_SIZE * (j + 3), PlanTotal(b, j + 2) > PLAN_MAX;
    AreasNext(f, j + 2, b, u);
    PassThird(f, j, PlanTotal(u, j + 2), u);
    MovedTwice(b, u, v, q, true, false, third);
    AreasNext(f, j + 3, b, v);
    PassFourth(f, q, PlanTotal(v, j + 3), v);
    MovedTwice(b, v, w, q, true, third, b[q + 2] > 0);
  }

  /** A whole pass, when area `j` is the first above the limit. */
  lemma {:induction false} Pass(f: Act, j: nat, b: seq<Byte>, end: nat)
    requires Swaps(f) && REACH <= |b| && FirstAbove(j, PLAN_LIMIT, b) && j + 3 < end == PERSON_AREAS_MAX
    ensures var q, r := ENTRY_SIZE * (j + 3), Areas(f, end, b);
      && Moved(b, r, q, true, (PlanTotal(b, j + 2) > PLAN_MAX) != (b[q + 2] > 0))
      && FirstAbove(j, PLAN_LIMIT, r) && PlanTotal(r, j + 2) == PlanTotal(b, j + 2)
  {
    var q := ENTRY_SIZE * (j + 3);
    var s, u, w := Areas(f, j, b), Areas(f, j + 2, b), Areas(f, j + 4, b);
    var short := (PlanTotal(b, j + 2) > PLAN_MAX) != (b[q + 2] > 0);
    PassTwo(f, j, b, s, Areas(f, j + 1, b), u);
    PassFour(f, j, b, u, Areas(f, j + 3, b), w);
    PassRest(f, j, b, end, w);
    MovedTwice(b, w, Areas(f, end, b), q, true, short, false);
    PassCounts(f, j, b, end, s, u);
  }

  lemma {:induction false} PassRest(f: Act, j: nat, b: seq<Byte>, end: nat, w: seq<Byte>)
    requires Swaps(f) && REACH <= |b| && j + 3 < end == PERSON_AREAS_MAX && w == Areas(f, j + 4, b) && |w| == |b|
    ensures Moved(w, Areas(f, end, b), ENTRY_SIZE * (j + 3), false, false)
  {
    var q := ENTRY_SIZE * (j + 3);
    LaterMiss(f, j + 4, end, b, w, q + 1);
    LaterMiss(f, j + 4, end, b, w, q + 2);
    LaterMiss(f, j + 4, end, b, w, q + 7);
    LaterMiss(f, j + 4, end, b, w, q + 8);
  }

  lemma {:induction false} PassCounts(f: Act, j: nat, b: seq<Byte>, end: nat, s: seq<Byte>, u: seq<Byte>)
    requires Swaps(f) && REACH <= |b| && FirstAbove(j, PLAN_LIMIT, b) && j + 3 < end == PERSON_AREAS_MAX
    requires s == Areas(f, j, b) && u == Areas(f, j + 2, b) && |s| == |u| == |b|
    requires PlanTotal(u, j + 2) == PlanTotal(b, j + 2) && forall k :: 0 <= k <= j ==> PlanTotal(s, k) == PlanTotal(b, k)
    ensures FirstAbove(j, PLAN_LIMIT, Areas(f, end, b)) && PlanTotal(Areas(f, end, b), j + 2) == PlanTotal(b, j + 2)
  {
    forall k | 0 <= k <= j ensures PlanTotal(Areas(f, end, b), k) == PlanTotal(b, k) {
      LaterMiss(f, j, end, b, s, ENTRY_SIZE * k + 1);
    }
    LaterMiss(f, j + 2, end, b, u, ENTRY_SIZE * (j + 2) + 1);
  }

  /** So the count of the third area is back after two passes, but its first short was
      swapped in one of them only, if the byte behind the count decides otherwise than it. */
  lemma {:induction false} TwoPasses(f: Act, j: nat, b: seq<Byte>, end: nat)
    requires Swaps(f) && REACH <= |b| && FirstAbove(j, PLAN_LIMIT, b) && j + 3 < end == PERSON_AREAS_MAX
    requires var q := ENTRY_SIZE * (j + 3); (b[q + 1] > 0) != (b[q + 2] > 0)
    ensures var q, r := ENTRY_SIZE * (j + 3), Areas(f, end, Areas(f, end, b));
      |r| == |b| && r[q + 7] == b[q + 8] && r[q + 8] == b[q + 7]
  {
    Pass(f, j, b, end);
    Pass(f, j, Areas(f, end, b), end);
  }

  /** A message with these counts in which the byte behind the count at `q + 1` decides otherwise. */
  lemma {:induction false} Misleading(counts: seq<Byte>, q: nat) returns (b: seq<Byte>)
    requires |counts| == PERSON_AREAS_MAX && q + 9 <= REACH && q % ENTRY_SIZE == 0
    ensures Claims(counts, b) && (b[q + 1] > 0) != (b[q + 2] > 0) && b[q + 7] != b[q + 8]
  {
    Inside(q);
    var m := Message(counts);
    assert m[q + 8] == 0;
    var a := m[q + 7 := 1];
    Marked(counts, m, q + 7, 1);
    var v := if m[q + 1] > 0 then 0 else 1;
    b := a[q + 2 := v];
    Marked(counts, a, q + 2, v);
  }

  lemma {:induction false} Inside(q: nat)
    requires q % ENTRY_SIZE == 0
    ensures (q + 2) % ENTRY_SIZE == 2 && (q + 7) % ENTRY_SIZE == 7 && (q + 8) % ENTRY_SIZE == 8
  {
  }

  lemma {:induction false} DoesNotComeBack(counts: seq<Byte>, j: nat) returns (b: seq<Byte>)
    requires |counts| == PERSON_AREAS_MAX && IsFirst(counts, PLAN_LIMIT, j) && j + 3 < PERSON_AREAS_MAX
    ensures Claims(counts, b) && Times(Times(b)) != b
  {
    b := Misleading(counts, ENTRY_SIZE * (j + 3));
    FirstInMessage(counts, PLAN_LIMIT, j, b);
    FlipAtSwaps();
    TwoPasses(FlipAt, j, b, PERSON_AREAS_MAX);
  }

  /** For all counts: the messages with these counts all come back from two conversions if and
      only if every area with a third one behind it is within the limit. */
  lemma {:induction false} LimitIsExact(counts: seq<Byte>)
    requires |counts| == PERSON_AREAS_MAX
    ensures (forall b :: Claims(counts, b) ==> Times(Times(b)) == b) <==> Contained(counts)
  {
    if Contained(counts) {
      forall b | Claims(counts, b) ensures Times(Times(b)) == b {
        TimesTwice(b);
      }
    } else {
      var k :| 0 <= k < |counts| && k + 3 < PERSON_AREAS_MAX && counts[k] > PLAN_LIMIT;
      var j := FindFirst(counts, PLAN_LIMIT, k);
      var b := DoesNotComeBack(counts, j);
    }
  }
}
