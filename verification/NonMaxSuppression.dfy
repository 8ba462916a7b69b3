/** Greedy non-maximum suppression (`non_max_suppress` in zen_rtsp/ObjectWrapper.py), with
    coordinates and scores as reals. */
module NonMaxSuppression {

  datatype Box = Box(x1: real, y1: real, x2: real, y2: real, score: real)

  function Max(a: real, b: real): real {
    if a < b then b else a
  }

  function Min(a: real, b: real): real {
    if a < b then a else b
  }

  function Area(b: Box): real {
    (b.x2 - b.x1 + 1.0) * (b.y2 - b.y1 + 1.0)
  }

  function Inter(a: Box, b: Box): real {
    Max(0.0, Min(a.x2, b.x2) - Max(a.x1, b.x1) + 1.0) * Max(0.0, Min(a.y2, b.y2) - Max(a.y1, b.y1) + 1.0)
  }

  function Union(a: Box, b: Box): real {
    Area(a) + Area(b) - Inter(a, b)
  }

  /** `iou <= threshold`.  A union of zero gives an infinity or no number at all, and neither
      is below the threshold. */
  predicate Passes(a: Box, b: Box, t: real) {
    Union(a, b) != 0.0 && Inter(a, b) / Union(a, b) <= t
  }

  /** Which boxes, by index, let which others pass. */
  type Relation = (nat, nat) -> bool

  function Clear(boxes: seq<Box>, t: real): Relation {
    (k: nat, i: nat) => k < |boxes| && i < |boxes| && Passes(boxes[k], boxes[i], t)
  }

  predicate Distinct(ids: seq<nat>) {
    forall p, q :: 0 <= p < q < |ids| ==> ids[p] != ids[q]
  }

  predicate InRange(boxes: seq<Box>, ids: seq<nat>) {
    forall p :: 0 <= p < |ids| ==> ids[p] < |boxes|
  }

  predicate Falling(boxes: seq<Box>, ids: seq<nat>) {
    InRange(boxes, ids) && forall p, q :: 0 <= p < q < |ids| ==> boxes[ids[p]].score >= boxes[ids[q]].score
  }

  /** What `argsort()[::-1]` promises: all boxes by falling score, equal scores in any order. */
  ghost predicate IsOrder(boxes: seq<Box>, order: seq<nat>) {
    && Distinct(order) && Falling(boxes, order)
    && forall i :: 0 <= i < |boxes| ==> i in order
  }

  /** Those of `rest` that `head` does not suppress. */
  function Survivors(pass: Relation, head: nat, rest: seq<nat>): (r: seq<nat>)
    ensures |r| <= |rest| && forall p :: 0 <= p < |r| ==> r[p] in rest
    ensures forall i :: i in r <==> i in rest && pass(head, i)
  {
    if rest == [] then []
    else
      var tail := Survivors(pass, head, rest[1..]);
      if pass(head, rest[0]) then [rest[0]] + tail else tail
  }

  function Greedy(pass: Relation, order: seq<nat>): (r: seq<nat>)
    ensures forall p :: 0 <= p < |r| ==> r[p] in order
    decreases |order|
  {
    if order == [] then [] else [order[0]] + Greedy(pass, Survivors(pass, order[0], order[1..]))
  }

  /** The loop for one class of objects. */
  method Suppress(boxes: seq<Box>, sorted: seq<nat>, t: real) returns (keep: seq<nat>)
    requires IsOrder(boxes, sorted)
    ensures keep == Greedy(Clear(boxes, t), sorted)
    ensures IsSuppression(boxes, t, keep)
  {
    var order, pass := sorted, Clear(boxes, t);
    keep := [];
    while |order| > 0
      invariant keep + Greedy(pass, order) == Greedy(pass, sorted)
      decreases |order|
    {
      var i := order[0];
      keep := keep + [i];
      order := Survivors(pass, i, order[1..]);
    }
    GreedyIsSuppression(boxes, sorted, t);
  }

  /** `bbox_array[keep]` */
  function Pick(boxes: seq<Box>, keep: seq<nat>): (r: seq<Box>)
    requires InRange(boxes, keep)
    ensures |r| == |keep| && forall p :: 0 <= p < |keep| ==> r[p] == boxes[keep[p]]
  {
    if keep == [] then [] else [boxes[keep[0]]] + Pick(boxes, keep[1..])
  }

  /** The boxes that stay, best first. */
  function Kept(boxes: seq<Box>, order: seq<nat>, t: real): seq<Box>
    requires InRange(boxes, order)
  {
    Pick(boxes, Greedy(Clear(boxes, t), order))
  }

  /** All classes: every entry is replaced by its boxes that stay. */
  method SuppressAll(predicts: map<nat, seq<Box>>, sorted: map<nat, seq<nat>>, t: real) returns (r: map<nat, seq<Box>>)
    requires forall c :: c in predicts ==> c in sorted && InRange(predicts[c], sorted[c]) && IsOrder(predicts[c], sorted[c])
    ensures r.Keys == predicts.Keys
    ensures forall c :: c in predicts ==> r[c] == Kept(predicts[c], sorted[c], t)
  {
    r := predicts;
    var todo := predicts.Keys;
    while todo != {}
      invariant todo <= predicts.Keys && r.Keys == predicts.Keys
      invariant forall c :: c in todo ==> r[c] == predicts[c]
      invariant forall c :: c in predicts && c !in todo ==> r[c] == Kept(predicts[c], sorted[c], t)
      decreases todo
    {
      var c :| c in todo;
      var keep := Suppress(r[c], sorted[c], t);
      r := r[c := Pick(r[c], keep)];
      todo := todo - {c};
    }
  }

  // ---------------------------------------------------------------- what is kept

  /** `k` comes before `i` in the order. */
  predicate Before(order: seq<nat>, k: nat, i: nat) {
    order != [] && ((order[0] == k && i in order[1..]) || Before(order[1..], k, i))
  }

  /** Nothing of `kept` that comes before box `i` suppresses it. */
  ghost predicate Unsuppressed(pass: Relation, order: seq<nat>, kept: set<nat>, i: nat) {
    forall k :: k in kept && Before(order, k, i) ==> pass(k, i)
  }

  ghost function Members(order: seq<nat>): set<nat> {
    set i | i in order
  }

  /** A selection that keeps a box just when nothing it keeps before suppresses it. */
  ghost predicate Fair(pass: Relation, order: seq<nat>, kept: set<nat>) {
    && kept <= Members(order)
    && forall i :: i in order ==> FairTo(pass, order, kept, i)
  }

  ghost predicate FairTo(pass: Relation, order: seq<nat>, kept: set<nat>, i: nat) {
    i in kept <==> Unsuppressed(pass, order, kept, i)
  }

  lemma {:induction false} SurvivorsKeepOrder(pass: Relation, head: nat, rest: seq<nat>)
    requires Distinct(rest)
    ensures Distinct(Survivors(pass, head, rest))
    ensures forall k, i :: Before(Survivors(pass, head, rest), k, i) <==>
      Before(rest, k, i) && pass(head, k) && pass(head, i)
  {
    if rest != [] {
      SurvivorsKeepOrder(pass, head, rest[1..]);
      var r, tail := Survivors(pass, head, rest), Survivors(pass, head, rest[1..]);
      assert pass(head, rest[0]) ==> r[1..] == tail;
      BeforeIsIn(rest[1..]);
    }
  }

  lemma {:induction false} BeforeIsIn(order: seq<nat>)
    ensures forall k, i :: Before(order, k, i) ==> k in order && i in order
  {
    if order != [] {
      BeforeIsIn(order[1..]);
    }
  }

  lemma {:induction false} OneIsBefore(order: seq<nat>, k: nat, i: nat)
    requires k in order && i in order && k != i
    ensures Before(order, k, i) || Before(order, i, k)
  {
    if order[0] != k && order[0] != i {
      OneIsBefore(order[1..], k, i);
    }
  }

  lemma {:induction false} FairToFirst(pass: Relation, order: seq<nat>, kept: set<nat>)
    requires Distinct(order) && order != []
    ensures FairTo(pass, order, kept, order[0]) <==> order[0] in kept
  {
    BeforeIsIn(order[1..]);
    assert order[0] !in order[1..];
    assert Unsuppressed(pass, order, kept, order[0]);
  }

  lemma {:induction false} FairToLater(pass: Relation, order: seq<nat>, kept: set<nat>, i: nat)
    requires Distinct(order) && order != [] && i in order[1..] && order[0] in kept
    ensures var rest, others := Survivors(pass, order[0], order[1..]), kept - {order[0]};
      others <= Members(rest) ==> (FairTo(pass, order, kept, i) <==> i in rest ==> FairTo(pass, rest, others, i))
    ensures FairTo(pass, order, kept, i) && i in kept ==> i in Survivors(pass, order[0], order[1..])
  {
    var h, rest := order[0], Survivors(pass, order[0], order[1..]);
    assert h !in order[1..];
    assert Before(order, h, i);
    if i in rest && kept - {h} <= Members(rest) {
      SurvivorsKeepOrder(pass, h, order[1..]);
      forall k | k in kept && k != h ensures Before(order, k, i) == Before(rest, k, i) {
        assert k in kept - {h};
      }
      assert Unsuppressed(pass, order, kept, i) ==> Unsuppressed(pass, rest, kept - {h}, i);
      assert Unsuppressed(pass, rest, kept - {h}, i) ==> Unsuppressed(pass, order, kept, i);
    } else if i !in rest {
      assert !Unsuppressed(pass, order, kept, i);
      assert kept - {h} <= Members(rest) ==> i !in kept - {h};
    }
  }

  /** A selection is fair just when it keeps the first box and is fair to its survivors. */
  lemma {:induction false} FairCons(pass: Relation, order: seq<nat>, kept: set<nat>)
    requires Distinct(order) && order != []
    ensures Fair(pass, order, kept) <==>
      order[0] in kept && Fair(pass, Survivors(pass, order[0], order[1..]), kept - {order[0]})
  {
    var h, rest := order[0], Survivors(pass, order[0], order[1..]);
    var others := kept - {h};
    assert order == [h] + order[1..] && h !in order[1..];
    FairToFirst(pass, order, kept);
    if Fair(pass, order, kept) {
      forall i | i in others ensures i in rest {
        assert FairTo(pass, order, kept, i);
        FairToLater(pass, order, kept, i);
      }
      forall i | i in rest ensures FairTo(pass, rest, others, i) {
        assert FairTo(pass, order, kept, i);
        FairToLater(pass, order, kept, i);
      }
    } else if h in kept && Fair(pass, rest, others) {
      forall i | i in order ensures FairTo(pass, order, kept, i) {
        if i != h {
          FairToLater(pass, order, kept, i);
        }
      }
      forall i | i in kept && i != h ensures i in order {
        assert i in others && i in rest && i in order[1..];
      }
    }
  }

  /** Greedy suppression is fair ... */
  lemma {:induction false} GreedyIsFair(pass: Relation, order: seq<nat>)
    requires Distinct(order)
    ensures Fair(pass, order, Members(Greedy(pass, order)))
    decreases |order|
  {
    if order != [] {
      var h, rest := order[0], Survivors(pass, order[0], order[1..]);
      SurvivorsKeepOrder(pass, h, order[1..]);
      GreedyIsFair(pass, rest);
      assert Members(Greedy(pass, order)) - {h} == Members(Greedy(pass, rest));
      FairCons(pass, order, Members(Greedy(pass, order)));
    }
  }

  /** ... and the only selection that is. */
  lemma {:induction false} FairIsGreedy(pass: Relation, order: seq<nat>, kept: set<nat>)
    requires Distinct(order) && Fair(pass, order, kept)
    ensures kept == Members(Greedy(pass, order))
    decreases |order|
  {
    if order != [] {
      var h, rest := order[0], Survivors(pass, order[0], order[1..]);
      SurvivorsKeepOrder(pass, h, order[1..]);
      FairCons(pass, order, kept);
      FairIsGreedy(pass, rest, kept - {h});
      assert Members(Greedy(pass, order)) - {h} == Members(Greedy(pass, rest));
    } else {
      assert kept == {};
    }
  }

  // ---------------------------------------------------------------- scores

  /** What suppression is for: best first, no two too close, and whatever is gone is too close
      to something at least as good that stays. */
  ghost predicate IsSuppression(boxes: seq<Box>, t: real, keep: seq<nat>) {
    && Distinct(keep) && Falling(boxes, keep)
    && (forall i, k :: i in keep && k in keep && i != k ==> Passes(boxes[k], boxes[i], t))
    && (forall i :: 0 <= i < |boxes| && i !in keep ==> SuppressedByBetter(boxes, t, keep, i))
  }

  ghost predicate SuppressedByBetter(boxes: seq<Box>, t: real, keep: seq<nat>, i: nat)
    requires InRange(boxes, keep) && i < |boxes|
  {
    exists k :: k in keep && boxes[k].score >= boxes[i].score && !Passes(boxes[k], boxes[i], t)
  }

  lemma {:induction false} PassesIsSymmetric(a: Box, b: Box, t: real)
    ensures Passes(a, b, t) == Passes(b, a, t)
  {
    assert Inter(a, b) == Inter(b, a);
  }

  predicate Proper(b: Box) {
    b.x1 <= b.x2 && b.y1 <= b.y2
  }

  /** For boxes that are not inside out the union is never zero, so nothing is dropped for
      want of a number, and the ratio is at most 1. */
  lemma {:induction false} ProperRatio(a: Box, b: Box)
    requires Proper(a) && Proper(b)
    ensures Union(a, b) >= 1.0 && 0.0 <= Inter(a, b) / Union(a, b) <= 1.0
  {
    InterIsInside(a, b);
    InterIsInside(b, a);
    AreaIsPositive(a);
    AreaIsPositive(b);
    RatioAtMostOne(Inter(a, b), Area(a), Area(b));
  }

  lemma {:induction false} InterIsInside(a: Box, b: Box)
    requires Proper(a)
    ensures 0.0 <= Inter(a, b) <= Area(a) && Inter(a, b) == Inter(b, a)
  {
    var w, h := Max(0.0, Min(a.x2, b.x2) - Max(a.x1, b.x1) + 1.0), Max(0.0, Min(a.y2, b.y2) - Max(a.y1, b.y1) + 1.0);
    ProductGrows(w, a.x2 - a.x1 + 1.0, h, a.y2 - a.y1 + 1.0);
  }

  lemma {:induction false} AreaIsPositive(a: Box)
    requires Proper(a)
    ensures Area(a) >= 1.0
  {
    var w, h := a.x2 - a.x1 + 1.0, a.y2 - a.y1 + 1.0;
    ProductGrows(1.0, w, 1.0, h);
    assert Area(a) == w * h;
  }

  lemma {:induction false} ProductGrows(w: real, v: real, h: real, g: real)
    requires 0.0 <= w <= v && 0.0 <= h <= g
    ensures 0.0 <= w * h <= v * g
  {
    assert v * g - w * h == v * (g - h) + (v - w) * h;
  }

  lemma {:induction false} RatioAtMostOne(i: real, a: real, b: real)
    requires 0.0 <= i <= a && i <= b && a >= 1.0 && b >= 1.0
    ensures a + b - i >= 1.0 && 0.0 <= i / (a + b - i) <= 1.0
  {
    RatioOf(i, a + b - i);
  }

  lemma {:induction false} RatioOf(i: real, u: real)
    requires 0.0 <= i <= u && u >= 1.0
    ensures 0.0 <= i / u <= 1.0
  {
    var q := i / u;
    assert q * u == i;
    assert (q - 1.0) * u == i - u;
  }

  // ---------------------------------------------------------------- pixels

  /** A box whose corners are pixels, both of them inside. */
  datatype Corners = Corners(x1: int, y1: int, x2: int, y2: int)

  function BoxOf(c: Corners, score: real): Box {
    Box(c.x1 as real, c.y1 as real, c.x2 as real, c.y2 as real, score)
  }

  function Pixels(c: Corners): (s: set<(int, int)>)
    ensures forall p :: p in s <==> c.x1 <= p.0 <= c.x2 && c.y1 <= p.1 <= c.y2
  {
    set x, y | c.x1 <= x <= c.x2 && c.y1 <= y <= c.y2 :: (x, y)
  }

  function Length(lo: int, hi: int): nat {
    if lo <= hi then hi - lo + 1 else 0
  }

  /** One row of a box. */
  lemma {:induction false} RowSize(c: Corners)
    requires c.y1 == c.y2
    ensures |Pixels(c)| == Length(c.x1, c.x2)
    decreases Length(c.x1, c.x2)
  {
    if c.x1 > c.x2 {
      assert Pixels(c) == {};
    } else {
      var rest := c.(x2 := c.x2 - 1);
      RowSize(rest);
      assert Pixels(c) == Pixels(rest) + {(c.x2, c.y1)};
    }
  }

  lemma {:induction false} LastRow(c: Corners)
    requires c.y1 <= c.y2
    ensures |Pixels(c)| == |Pixels(c.(y2 := c.y2 - 1))| + Length(c.x1, c.x2)
  {
    var rest, row := c.(y2 := c.y2 - 1), c.(y1 := c.y2);
    RowSize(row);
    assert Pixels(c) == Pixels(rest) + Pixels(row);
    assert Pixels(rest) !! Pixels(row);
  }

  lemma {:induction false} PixelCount(c: Corners)
    ensures |Pixels(c)| == Length(c.x1, c.x2) * Length(c.y1, c.y2)
    decreases Length(c.y1, c.y2)
  {
    if c.y1 > c.y2 {
      assert Pixels(c) == {};
    } else {
      PixelCount(c.(y2 := c.y2 - 1));
      LastRow(c);
      OneMore(Length(c.x1, c.x2), Length(c.y1, c.y2 - 1));
    }
  }

  lemma {:induction false} OneMore(w: int, h: int)
    ensures w * (h + 1) == w * h + w
  {
  }

  function Common(a: Corners, b: Corners): Corners {
    Corners(if a.x1 < b.x1 then b.x1 else a.x1, if a.y1 < b.y1 then b.y1 else a.y1,
            if a.x2 < b.x2 then a.x2 else b.x2, if a.y2 < b.y2 then a.y2 else b.y2)
  }

  lemma {:induction false} ProductAsReal(w: int, h: int)
    ensures (w * h) as real == w as real * h as real
  {
  }

  lemma {:induction false} AreaIsPixels(c: Corners, score: real)
    requires c.x1 <= c.x2 && c.y1 <= c.y2
    ensures Area(BoxOf(c, score)) == |Pixels(c)| as real
  {
    PixelCount(c);
    ProductAsReal(c.x2 - c.x1 + 1, c.y2 - c.y1 + 1);
  }

  lemma {:induction false} CommonPixels(a: Corners, b: Corners)
    ensures Pixels(a) * Pixels(b) == Pixels(Common(a, b))
  {
  }

  lemma {:induction false} CommonLength(a1: int, a2: int, b1: int, b2: int)
    ensures Length(if a1 < b1 then b1 else a1, if a2 < b2 then a2 else b2) as real
      == Max(0.0, Min(a2 as real, b2 as real) - Max(a1 as real, b1 as real) + 1.0)
  {
  }

  lemma {:induction false} InterOf(a: Corners, b: Corners, s: real, t: real, w: int, h: int)
    requires w == Length(Common(a, b).x1, Common(a, b).x2) && h == Length(Common(a, b).y1, Common(a, b).y2)
    ensures Inter(BoxOf(a, s), BoxOf(b, t)) == w as real * h as real
  {
    CommonLength(a.x1, a.x2, b.x1, b.x2);
    CommonLength(a.y1, a.y2, b.y1, b.y2);
  }

  lemma {:induction false} InterAt(a: Corners, b: Corners, s: real, t: real, w: int, h: int, n: int)
    requires w == Length(Common(a, b).x1, Common(a, b).x2) && h == Length(Common(a, b).y1, Common(a, b).y2) && n == w * h
    ensures Inter(BoxOf(a, s), BoxOf(b, t)) == n as real
  {
    InterOf(a, b, s, t, w, h);
    ProductAsReal(w, h);
  }

  lemma {:induction false} InterIsPixels(a: Corners, b: Corners, s: real, t: real)
    ensures Inter(BoxOf(a, s), BoxOf(b, t)) == |Pixels(a) * Pixels(b)| as real
  {
    var c := Common(a, b);
    CommonPixels(a, b);
    PixelCount(c);
    InterAt(a, b, s, t, Length(c.x1, c.x2), Length(c.y1, c.y2), |Pixels(c)|);
  }

  lemma {:induction false} SizeOfUnion<T>(a: set<T>, b: set<T>)
    ensures |a + b| + |a * b| == |a| + |b|
  {
    assert a + b == a + (b - a) && b == (b - a) + a * b;
    assert (b - a) !! (a * b);
  }

  lemma {:induction false} UnionIsPixels(a: Corners, b: Corners, s: real, t: real)
    requires a.x1 <= a.x2 && a.y1 <= a.y2 && b.x1 <= b.x2 && b.y1 <= b.y2
    ensures Union(BoxOf(a, s), BoxOf(b, t)) == |Pixels(a) + Pixels(b)| as real
  {
    AreaIsPixels(a, s);
    AreaIsPixels(b, t);
    InterIsPixels(a, b, s, t);
    SizeOfUnion(Pixels(a), Pixels(b));
  }

  lemma {:induction false} PixelSizes(a: Corners, b: Corners, s: real, t: real, both: nat, either: nat)
    requires a.x1 <= a.x2 && a.y1 <= a.y2 && b.x1 <= b.x2 && b.y1 <= b.y2
    requires both == |Pixels(a) * Pixels(b)| && either == |Pixels(a) + Pixels(b)|
    ensures Inter(BoxOf(a, s), BoxOf(b, t)) == both as real && Union(BoxOf(a, s), BoxOf(b, t)) == either as real
  {
    InterIsPixels(a, b, s, t);
    UnionIsPixels(a, b, s, t);
  }

  /** For boxes with pixels for corners the arithmetic counts pixels: a box lets another pass
      just when at most the fraction `t` of the pixels in either are in both. */
  lemma {:induction false} PassesCountsPixels(a: Corners, b: Corners, s: real, s': real, t: real, both: nat, either: nat)
    requires a.x1 <= a.x2 && a.y1 <= a.y2 && b.x1 <= b.x2 && b.y1 <= b.y2
    requires both == |Pixels(a) * Pixels(b)| && either == |Pixels(a) + Pixels(b)|
    ensures Passes(BoxOf(a, s), BoxOf(b, s'), t) <==> both as real <= t * (either as real)
  {
    PixelSizes(a, b, s, s', both, either);
    PassesOf(a, b, s, s', t, both, either);
  }

  lemma {:induction false} PassesOf(a: Corners, b: Corners, s: real, s': real, t: real, i: nat, u: nat)
    requires a.x1 <= a.x2 && a.y1 <= a.y2 && b.x1 <= b.x2 && b.y1 <= b.y2
    requires Inter(BoxOf(a, s), BoxOf(b, s')) == i as real && Union(BoxOf(a, s), BoxOf(b, s')) == u as real
    ensures Passes(BoxOf(a, s), BoxOf(b, s'), t) <==> i as real <= t * (u as real)
  {
    ProperRatio(BoxOf(a, s), BoxOf(b, s'));
    RatioAtMost(i as real, u as real, t);
  }

  lemma {:induction false} RatioAtMost(i: real, u: real, t: real)
    requires u >= 1.0
    ensures i / u <= t <==> i <= t * u
  {
    var q := i / u;
    assert q * u == i;
    assert (t - q) * u == t * u - i;
  }

  lemma {:induction false} BeforeIsBetter(boxes: seq<Box>, order: seq<nat>, k: nat, i: nat)
    requires Falling(boxes, order) && Before(order, k, i)
    ensures k in order && i in order && boxes[k].score >= boxes[i].score
  {
    if !(order[0] == k && i in order[1..]) {
      BeforeIsBetter(boxes, order[1..], k, i);
    }
  }

  lemma {:induction false} SurvivorsFall(boxes: seq<Box>, pass: Relation, head: nat, rest: seq<nat>)
    requires Falling(boxes, rest)
    ensures Falling(boxes, Survivors(pass, head, rest))
  {
    if rest != [] {
      SurvivorsFall(boxes, pass, head, rest[1..]);
      if pass(head, rest[0]) {
        SortedCons(boxes, rest, Survivors(pass, head, rest[1..]));
      }
    }
  }

  lemma {:induction false} SortedCons(boxes: seq<Box>, order: seq<nat>, tail: seq<nat>)
    requires Falling(boxes, order) && order != []
    requires Falling(boxes, tail) && forall i :: i in tail ==> i in order[1..]
    ensures Falling(boxes, [order[0]] + tail)
  {
    forall q | 0 <= q < |tail| ensures boxes[order[0]].score >= boxes[tail[q]].score {
      assert tail[q] in order[1..];
    }
  }

  lemma {:induction false} GreedyIsSorted(boxes: seq<Box>, pass: Relation, order: seq<nat>)
    requires Distinct(order) && Falling(boxes, order)
    ensures Distinct(Greedy(pass, order)) && Falling(boxes, Greedy(pass, order))
    decreases |order|
  {
    if order != [] {
      var rest := Survivors(pass, order[0], order[1..]);
      SurvivorsKeepOrder(pass, order[0], order[1..]);
      SurvivorsFall(boxes, pass, order[0], order[1..]);
      GreedyIsSorted(boxes, pass, rest);
      SortedCons(boxes, order, Greedy(pass, rest));
      assert order[0] !in Greedy(pass, rest);
    }
  }

  lemma {:induction false} GreedyIsSuppression(boxes: seq<Box>, order: seq<nat>, t: real)
    requires IsOrder(boxes, order)
    ensures IsSuppression(boxes, t, Greedy(Clear(boxes, t), order))
  {
    var pass, keep := Clear(boxes, t), Greedy(Clear(boxes, t), order);
    GreedyIsSorted(boxes, pass, order);
    GreedyIsFair(pass, order);
    forall i, k | i in keep && k in keep && i != k ensures Passes(boxes[k], boxes[i], t) {
      KeptPass(boxes, order, t, k, i);
    }
    forall i | 0 <= i < |boxes| && i !in keep ensures SuppressedByBetter(boxes, t, keep, i) {
      assert FairTo(pass, order, Members(keep), i) && i in order;
      assert !Unsuppressed(pass, order, Members(keep), i);
      var k :| k in keep && Before(order, k, i) && !pass(k, i);
      BeforeIsBetter(boxes, order, k, i);
    }
  }

  lemma {:induction false} KeptPass(boxes: seq<Box>, order: seq<nat>, t: real, k: nat, i: nat)
    requires InRange(boxes, order) && Distinct(order) && k != i
    requires k in Greedy(Clear(boxes, t), order) && i in Greedy(Clear(boxes, t), order)
    ensures Passes(boxes[k], boxes[i], t)
  {
    var pass := Clear(boxes, t);
    GreedyIsFair(pass, order);
    OneIsBefore(order, k, i);
    PassesIsSymmetric(boxes[k], boxes[i], t);
    assert pass(k, i) || pass(i, k);
  }

  // ---------------------------------------------------------------- repeating and reordering

  lemma {:induction false} AllPassAllKept(pass: Relation, order: seq<nat>)
    requires forall p, q :: 0 <= p < q < |order| ==> pass(order[p], order[q])
    ensures Greedy(pass, order) == order
  {
    if order != [] {
      AllSurvive(pass, order[0], order[1..]);
      AllPassAllKept(pass, order[1..]);
    }
  }

  lemma {:induction false} AllSurvive(pass: Relation, head: nat, rest: seq<nat>)
    requires forall p :: 0 <= p < |rest| ==> pass(head, rest[p])
    ensures Survivors(pass, head, rest) == rest
  {
    if rest != [] {
      AllSurvive(pass, head, rest[1..]);
    }
  }

  /** Running it again on what it kept, in any order by score, keeps every box. */
  lemma {:induction false} AgainKeepsAll(boxes: seq<Box>, order: seq<nat>, t: real, again: seq<nat>)
    requires IsOrder(boxes, order) && IsOrder(Kept(boxes, order, t), again)
    ensures Greedy(Clear(Kept(boxes, order, t), t), again) == again
  {
    var kept, keep := Kept(boxes, order, t), Greedy(Clear(boxes, t), order);
    GreedyIsSorted(boxes, Clear(boxes, t), order);
    forall p, q | 0 <= p < q < |again| ensures Clear(kept, t)(again[p], again[q]) {
      assert again[p] in again && again[q] in again;
      KeptPass(boxes, order, t, keep[again[p]], keep[again[q]]);
    }
    AllPassAllKept(Clear(kept, t), again);
  }

  /** The boxes that stay, by index. */
  ghost function KeptSet(boxes: seq<Box>, order: seq<nat>, t: real): set<nat> {
    Members(Greedy(Clear(boxes, t), order))
  }

  /** Nothing that is kept and has a better score suppresses box `i`. */
  ghost predicate ClearOfBetter(boxes: seq<Box>, t: real, kept: set<nat>, i: nat)
    requires i < |boxes|
  {
    forall k :: k in kept && k < |boxes| && boxes[k].score > boxes[i].score ==> Passes(boxes[k], boxes[i], t)
  }

  /** Two boxes of the same score that nothing better decides about, and too close for both. */
  ghost predicate Tied(boxes: seq<Box>, t: real, kept: set<nat>, i: nat, k: nat) {
    && i < |boxes| && k < |boxes| && i != k && boxes[i].score == boxes[k].score
    && ClearOfBetter(boxes, t, kept, i) && ClearOfBetter(boxes, t, kept, k) && !Passes(boxes[i], boxes[k], t)
  }

  ghost predicate NoneTied(boxes: seq<Box>, t: real, kept: set<nat>) {
    forall i, k :: !Tied(boxes, t, kept, i, k)
  }

  /** Without such boxes what was kept is fair for every other order. */
  lemma {:induction false} UntiedIsFair(boxes: seq<Box>, order: seq<nat>, other: seq<nat>, t: real, i: nat)
    requires IsOrder(boxes, order) && IsOrder(boxes, other) && i < |boxes|
    requires NoneTied(boxes, t, KeptSet(boxes, order, t))
    ensures FairTo(Clear(boxes, t), other, KeptSet(boxes, order, t), i)
  {
    var pass, kept := Clear(boxes, t), KeptSet(boxes, order, t);
    if i in kept {
      forall k | k in kept && Before(other, k, i) ensures pass(k, i) {
        NotBeforeItself(other, i);
        KeptPass(boxes, order, t, k, i);
      }
    } else {
      DroppedForBetter(boxes, order, t, i);
      var l :| l in kept && l < |boxes| && boxes[l].score > boxes[i].score && !Passes(boxes[l], boxes[i], t);
      BetterIsBefore(boxes, other, l, i);
      assert !pass(l, i);
    }
  }

  /** Then a box that is dropped is dropped for a better one. */
  lemma {:induction false} DroppedForBetter(boxes: seq<Box>, order: seq<nat>, t: real, i: nat)
    requires IsOrder(boxes, order) && i < |boxes| && i !in KeptSet(boxes, order, t)
    requires NoneTied(boxes, t, KeptSet(boxes, order, t))
    ensures !ClearOfBetter(boxes, t, KeptSet(boxes, order, t), i)
  {
    var pass, kept := Clear(boxes, t), KeptSet(boxes, order, t);
    GreedyIsFair(pass, order);
    assert FairTo(pass, order, kept, i);
    var k :| k in kept && Before(order, k, i) && !pass(k, i);
    BeforeIsBetter(boxes, order, k, i);
    KeptIsClear(boxes, order, t, k);
    assert !Tied(boxes, t, kept, k, i);
  }

  lemma {:induction false} UntiedIsSame(boxes: seq<Box>, order: seq<nat>, other: seq<nat>, t: real)
    requires IsOrder(boxes, order) && IsOrder(boxes, other)
    requires NoneTied(boxes, t, KeptSet(boxes, order, t))
    ensures KeptSet(boxes, other, t) == KeptSet(boxes, order, t)
  {
    var pass, kept := Clear(boxes, t), KeptSet(boxes, order, t);
    forall i | i in other ensures FairTo(pass, other, kept, i) {
      UntiedIsFair(boxes, order, other, t, i);
    }
    FairIsGreedy(pass, other, kept);
  }

  lemma {:induction false} KeptIsClear(boxes: seq<Box>, order: seq<nat>, t: real, k: nat)
    requires IsOrder(boxes, order) && k in Greedy(Clear(boxes, t), order)
    ensures ClearOfBetter(boxes, t, KeptSet(boxes, order, t), k)
  {
    forall l | l in Greedy(Clear(boxes, t), order) && boxes[l].score > boxes[k].score ensures Passes(boxes[l], boxes[k], t) {
      KeptPass(boxes, order, t, l, k);
    }
  }

  lemma {:induction false} BetterIsBefore(boxes: seq<Box>, order: seq<nat>, k: nat, i: nat)
    requires IsOrder(boxes, order) && k < |boxes| && i < |boxes| && boxes[k].score > boxes[i].score
    ensures Before(order, k, i)
  {
    OneIsBefore(order, k, i);
    if Before(order, i, k) {
      BeforeIsBetter(boxes, order, i, k);
    }
  }

  /** Those of `order` whose score is above `s`, or those whose score is not, but for box `i`. */
  function Part(boxes: seq<Box>, order: seq<nat>, s: real, above: bool, i: nat): (r: seq<nat>)
    requires InRange(boxes, order)
    ensures forall k :: k in r <==> k in order && k != i && (boxes[k].score > s <==> above)
  {
    if order == [] then []
    else
      var tail := Part(boxes, order[1..], s, above, i);
      if order[0] != i && (boxes[order[0]].score > s <==> above) then [order[0]] + tail else tail
  }

  lemma {:induction false} PartFalls(boxes: seq<Box>, order: seq<nat>, s: real, above: bool, i: nat)
    requires Distinct(order) && Falling(boxes, order)
    ensures Distinct(Part(boxes, order, s, above, i)) && Falling(boxes, Part(boxes, order, s, above, i))
  {
    if order != [] {
      PartFalls(boxes, order[1..], s, above, i);
      var tail := Part(boxes, order[1..], s, above, i);
      if order[0] != i && (boxes[order[0]].score > s <==> above) {
        SortedCons(boxes, order, tail);
        assert order[0] !in order[1..];
      }
    }
  }

  /** The sort may also put box `i` before all others of its score. */
  lemma {:induction false} FirstOfItsScore(boxes: seq<Box>, order: seq<nat>, i: nat) returns (other: seq<nat>)
    requires IsOrder(boxes, order) && i < |boxes|
    ensures IsOrder(boxes, other)
    ensures forall k: nat :: Before(other, k, i) ==> k < |boxes| && boxes[k].score > boxes[i].score
  {
    var s := boxes[i].score;
    var front, back := Part(boxes, order, s, true, i), Part(boxes, order, s, false, i);
    PartFalls(boxes, order, s, true, i);
    PartFalls(boxes, order, s, false, i);
    other := front + [i] + back;
    Joined(boxes, front, i, back);
    forall k: nat | Before(other, k, i) ensures k in front {
      BeforeMiddle(front, i, back, k);
    }
  }

  lemma {:induction false} Joined(boxes: seq<Box>, front: seq<nat>, i: nat, back: seq<nat>)
    requires Distinct(front) && Falling(boxes, front) && Distinct(back) && Falling(boxes, back) && i < |boxes|
    requires forall k :: k in front ==> boxes[k].score > boxes[i].score
    requires forall k :: k in back ==> k != i && boxes[k].score <= boxes[i].score
    ensures Distinct(front + [i] + back) && Falling(boxes, front + [i] + back)
  {
    var all := front + [i] + back;
    forall p, q | 0 <= p < q < |all| ensures all[p] != all[q] && all[p] < |boxes| && all[q] < |boxes| && boxes[all[p]].score >= boxes[all[q]].score {
      assert p < |front| ==> all[p] in front;
      assert q < |front| ==> all[q] in front;
      assert p > |front| ==> all[p] in back;
      assert q > |front| ==> all[q] in back;
    }
    forall p | 0 <= p < |all| ensures all[p] < |boxes| {
      assert all[p] in front || all[p] == i || all[p] in back;
    }
  }

  lemma {:induction false} BeforeMiddle(front: seq<nat>, i: nat, back: seq<nat>, k: nat)
    requires i !in front && i !in back && Before(front + [i] + back, k, i)
    ensures k in front
  {
    var all := front + [i] + back;
    if front == [] {
      assert all[1..] == back;
      BeforeIsIn(back);
    } else {
      assert all[1..] == front[1..] + [i] + back;
      if Before(all[1..], k, i) {
        BeforeMiddle(front[1..], i, back, k);
      }
    }
  }

  /** A box of a tie that is not kept is kept when the sort puts it first. */
  lemma {:induction false} TieIsOpen(boxes: seq<Box>, order: seq<nat>, t: real, i: nat) returns (other: seq<nat>)
    requires IsOrder(boxes, order) && i < |boxes| && i !in Greedy(Clear(boxes, t), order)
    requires ClearOfBetter(boxes, t, KeptSet(boxes, order, t), i)
    ensures IsOrder(boxes, other)
    ensures KeptSet(boxes, other, t) != KeptSet(boxes, order, t)
  {
    other := FirstOfItsScore(boxes, order, i);
    var pass, kept := Clear(boxes, t), KeptSet(boxes, order, t);
    GreedyIsFair(pass, other);
    assert Unsuppressed(pass, other, kept, i);
    assert FairTo(pass, other, Members(Greedy(pass, other)), i);
  }

  lemma {:induction false} TiedIsOpen(boxes: seq<Box>, order: seq<nat>, t: real, i: nat, k: nat) returns (other: seq<nat>)
    requires IsOrder(boxes, order) && Tied(boxes, t, KeptSet(boxes, order, t), i, k)
    ensures IsOrder(boxes, other) && KeptSet(boxes, other, t) != KeptSet(boxes, order, t)
  {
    if i in KeptSet(boxes, order, t) && k in KeptSet(boxes, order, t) {
      KeptPass(boxes, order, t, i, k);
    }
    other := TieIsOpen(boxes, order, t, if i in KeptSet(boxes, order, t) then k else i);
  }

  /** The way the sort treats equal scores cannot matter if and only if no two boxes of the same
      score that are clear of all better boxes kept are too close to each other. */
  lemma {:induction false} TiesDecide(boxes: seq<Box>, order: seq<nat>, t: real)
    requires IsOrder(boxes, order)
    ensures (forall other :: IsOrder(boxes, other) ==> KeptSet(boxes, other, t) == KeptSet(boxes, order, t))
      <==> NoneTied(boxes, t, KeptSet(boxes, order, t))
  {
    if NoneTied(boxes, t, KeptSet(boxes, order, t)) {
      forall other | IsOrder(boxes, other) ensures KeptSet(boxes, other, t) == KeptSet(boxes, order, t) {
        UntiedIsSame(boxes, order, other, t);
      }
    } else {
      var i, k :| Tied(boxes, t, KeptSet(boxes, order, t), i, k);
      var other := TiedIsOpen(boxes, order, t, i, k);
    }
  }

  /** Two boxes that overlap by four fifths, with the same score: each order keeps another. */
  lemma {:induction false} TieMatters()
    ensures var boxes := [Box(0.0, 0.0, 9.0, 9.0, 1.0), Box(1.0, 0.0, 10.0, 9.0, 1.0)];
      && IsOrder(boxes, [0, 1]) && IsOrder(boxes, [1, 0])
      && Greedy(Clear(boxes, 0.6), [0, 1]) == [0] && Greedy(Clear(boxes, 0.6), [1, 0]) == [1]
  {
    var a, b := Box(0.0, 0.0, 9.0, 9.0, 1.0), Box(1.0, 0.0, 10.0, 9.0, 1.0);
    TwoOverlap(a, b);
    OneOfTwo([a, b], 0.6, 0, 1);
    OneOfTwo([a, b], 0.6, 1, 0);
  }

  lemma {:induction false} OneOfTwo(boxes: seq<Box>, t: real, k: nat, i: nat)
    requires |boxes| == 2 && k < 2 && i < 2 && k != i && boxes[k].score == boxes[i].score && !Passes(boxes[k], boxes[i], t)
    ensures IsOrder(boxes, [k, i]) && Greedy(Clear(boxes, t), [k, i]) == [k]
  {
    TooClose(Clear(boxes, t), k, i);
    assert [k, i][0] == k && [k, i][1] == i;
  }

  lemma {:induction false} TwoOverlap(a: Box, b: Box)
    requires a == Box(0.0, 0.0, 9.0, 9.0, 1.0) && b == Box(1.0, 0.0, 10.0, 9.0, 1.0)
    ensures !Passes(a, b, 0.6) && !Passes(b, a, 0.6)
  {
    assert Inter(a, b) == 90.0 && Union(a, b) == 110.0;
    PassesIsSymmetric(a, b, 0.6);
  }

  lemma {:induction false} TooClose(pass: Relation, k: nat, i: nat)
    requires !pass(k, i)
    ensures Greedy(pass, [k, i]) == [k]
  {
    assert [k, i][1..] == [i] && [i][1..] == [];
    assert Survivors(pass, k, [i]) == [];
  }

  /** So when no two scores are equal, it does not matter. */
  lemma {:induction false} SortingDoesNotMatter(boxes: seq<Box>, order: seq<nat>, other: seq<nat>, t: real)
    requires IsOrder(boxes, order) && IsOrder(boxes, other)
    requires forall i, k :: 0 <= i < k < |boxes| ==> boxes[i].score != boxes[k].score
    ensures KeptSet(boxes, order, t) == KeptSet(boxes, other, t)
  {
    assert NoneTied(boxes, t, KeptSet(boxes, order, t));
    TiesDecide(boxes, order, t);
    assert KeptSet(boxes, other, t) == KeptSet(boxes, order, t);
  }

  lemma {:induction false} NotBeforeItself(order: seq<nat>, k: nat)
    requires Distinct(order)
    ensures !Before(order, k, k)
  {
    if order != [] {
      NotBeforeItself(order[1..], k);
    }
  }
}
