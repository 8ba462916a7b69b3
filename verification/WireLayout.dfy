/** Where the shorts and ints of every class of message lie (zen_rtsp/client_obj.h), by their
    places in the packed structures: for each byte of a converted message, the byte of the
    original that it comes from. */
module WireLayout {
  import opened NetConvert
  import opened PlanConversion
  import opened Modular

  /** `n` shorts, one after the other from `p` on: their bytes change places, all others stay. */
  function Shorts(x: nat, p: nat, n: nat): nat {
    if p <= x < p + 2 * n then if (x - p) % 2 == 0 then x + 1 else x - 1 else x
  }

  /** `n` ints. */
  function Ints(x: nat, p: nat, n: nat): nat {
    if p <= x < p + 4 * n then x + 3 - 2 * ((x - p) % 4) else x
  }

  // ---------------------------------------------------------------- the structures, by offsets

  /** mChannelCoil: `landID` at 0, twelve points from 5 on. */
  function InLane(x: nat): nat {
    Shorts(Ints(x, 0, 1), 5, 24)
  }

  /** mDetectParam: `uTransFactor` at 0, four thresholds from 2 on, nine shorts from 18 on. */
  function InParam(x: nat): nat {
    Shorts(Ints(Shorts(x, 0, 1), 2, 4), 18, 9)
  }

  /** mPersonArea: six points from 1 on. */
  function InPersonArea(x: nat): nat {
    Shorts(x, 1, 12)
  }

  /** mEventArea: four points from 1 on, the type at 17, `reserve` at 21. */
  function InEventArea(x: nat): nat {
    Ints(Shorts(x, 1, 8), 17, 2)
  }

  /** mCamDetectParam: eight lanes of 53 bytes from 1 on; lane lines from 426, standard points
      from 554, areas from 578; two sets of parameters of 36 bytes from 642 on; eight person
      areas of 25 bytes from 715 on; `personlimit` at 1019, `camPort` at 1038, `camerId` at
      1082 and the six shorts of the camera's place from 1187 on. */
  function InAlgInfo(x: nat): nat {
    if x < 1 then x
    else if x < 425 then 1 + (x - 1) / 53 * 53 + InLane((x - 1) % 53)
    else if x < 642 then Shorts(x, 426, 108)
    else if x < 714 then 642 + (x - 642) / 36 * 36 + InParam((x - 642) % 36)
    else if x < 715 then x
    else if x < 915 then 715 + (x - 715) / 25 * 25 + InPersonArea((x - 715) % 25)
    else Shorts(Ints(Ints(Shorts(x, 1019, 1), 1038, 1), 1082, 1), 1187, 6)
  }

  function Source(c: Class, x: nat): nat {
    match c
    case Command => Ints(Shorts(x, 2, 2), 6, 1)
    case BaseInfo => Ints(x, 62, 1)
    case SysInfo => x
    case NetworkInfo => Shorts(Ints(Ints(x, 64, 2), 125, 2), 133, 1)
    case AlgInfo => InAlgInfo(x)
    case Date => Shorts(x, 0, 1)
    case StatiscInfo => Shorts(x, 0, 1)
    case ChangeTime => Ints(x, 0, 4)
    case SerialInfo => Shorts(x, 0, 3)
    case ProtocolInfo => x
    case Ntp => Ints(x, 16, 2)
    case CameraStatus => x
    case EventInfo => if x < 1 then x else 1 + (x - 1) / 90 * 90 + InEventArea((x - 1) % 90)
    case PersonAreaTimes => x
  }

  // ---------------------------------------------------------------- pieces of a structure

  lemma {:induction false} MirrorConcat(us: seq<Unit>, vs: seq<Unit>, x: nat)
    requires x < Total(us) + Total(vs)
    ensures x < Total(us + vs)
    ensures Mirror(us + vs, x) == if x < Total(us) then Mirror(us, x) else Total(us) + Mirror(vs, x - Total(us))
  {
    TotalConcat(us, vs);
    if us == [] {
      assert us + vs == vs;
    } else {
      var w := Width(us[0]);
      assert (us + vs)[1..] == us[1..] + vs;
      if x >= w {
        MirrorConcat(us[1..], vs, x - w);
      }
    }
  }

  /** In `n` pieces alike, byte `y` of piece `k`. */
  lemma {:induction false} MirrorRepeat(n: nat, us: seq<Unit>, w: nat, k: nat, y: nat)
    requires Total(us) == w && k < n && y < w
    ensures k * w + y < Total(Repeat(n, us)) == n * w
    ensures Mirror(Repeat(n, us), k * w + y) == k * w + Mirror(us, y)
  {
    var m := n - 1;
    TotalRepeat(n, us, w);
    TotalRepeat(m, us, w);
    assert m * w + w == n * w;
    if k == m {
      MirrorConcat(Repeat(m, us), us, k * w + y);
    } else {
      MirrorRepeat(m, us, w, k, y);
      MirrorConcat(Repeat(m, us), us, k * w + y);
    }
  }

  /** The same, piece by piece, with the sizes of the pieces. */
  lemma {:induction false} MirrorSum(a: seq<Unit>, b: seq<Unit>, c: seq<Unit>, d: seq<Unit>, na: nat, nb: nat, nc: nat, nd: nat, x: nat)
    requires Total(a) == na && Total(b) == nb && Total(c) == nc && Total(d) == nd && x < na + nb + nc + nd
    ensures Total(a + b + c + d) == na + nb + nc + nd
    ensures Mirror(a + b + c + d, x) ==
      if x < na then Mirror(a, x)
      else if x < na + nb then na + Mirror(b, x - na)
      else if x < na + nb + nc then na + nb + Mirror(c, x - na - nb)
      else na + nb + nc + Mirror(d, x - na - nb - nc)
  {
    var front := a + b + c;
    Sum4(a, b, c, d);
    MirrorConcat(front, d, x);
    if x < na + nb + nc {
      MirrorSum3(a, b, c, na, nb, nc, x);
    }
  }

  lemma {:induction false} MirrorSum3(a: seq<Unit>, b: seq<Unit>, c: seq<Unit>, na: nat, nb: nat, nc: nat, x: nat)
    requires Total(a) == na && Total(b) == nb && Total(c) == nc && x < na + nb + nc
    ensures Total(a + b + c) == na + nb + nc
    ensures Mirror(a + b + c, x) ==
      if x < na then Mirror(a, x) else if x < na + nb then na + Mirror(b, x - na) else na + nb + Mirror(c, x - na - nb)
  {
    TotalConcat(a, b);
    TotalConcat(a + b, c);
    MirrorConcat(a + b, c, x);
    if x < na + nb {
      MirrorConcat(a, b, x);
    }
  }

  /** Byte `x` counted from `p` on. */
  function From(x: nat, p: nat): nat {
    if x >= p then x - p else 0
  }

  predicate AllOf(us: seq<Unit>, u: Unit) {
    forall i :: 0 <= i < |us| ==> us[i] == u
  }

  /** Members of one kind in a row. */
  lemma {:induction false} MirrorPlains(us: seq<Unit>, x: nat)
    requires AllOf(us, Plain)
    ensures Total(us) == |us| && (x < |us| ==> Mirror(us, x) == x)
  {
    if us != [] {
      MirrorPlains(us[1..], if x >= 1 then x - 1 else 0);
    }
  }

  lemma {:induction false} MirrorShorts(us: seq<Unit>, x: nat)
    requires AllOf(us, Short)
    ensures Total(us) == 2 * |us| && (x < 2 * |us| ==> Mirror(us, x) == Shorts(x, 0, |us|))
  {
    if us != [] {
      MirrorShorts(us[1..], if x >= 2 then x - 2 else 0);
    }
  }

  lemma {:induction false} IntsShift(x: nat, n: nat)
    requires n > 0
    ensures x >= 4 ==> Ints(x, 0, n) == 4 + Ints(x - 4, 0, n - 1)
    ensures x < 4 ==> Ints(x, 0, n) == 3 - x
  {
  }

  lemma {:induction false} MirrorInts(us: seq<Unit>, x: nat)
    requires AllOf(us, Int)
    ensures Total(us) == 4 * |us| && (x < 4 * |us| ==> Mirror(us, x) == Ints(x, 0, |us|))
  {
    if us != [] {
      IntsShift(x, |us|);
      MirrorInts(us[1..], From(x, 4));
    }
  }

  lemma {:induction false} RepeatIs(n: nat, us: seq<Unit>, u: Unit)
    requires AllOf(us, u)
    ensures AllOf(Repeat(n, us), u) && |Repeat(n, us)| == n * |us|
  {
    if n > 0 {
      RepeatIs(n - 1, us, u);
      assert (n - 1) * |us| + |us| == n * |us|;
    }
  }

  /** These units have `size` bytes, and byte `x` of them comes from byte `y`. */
  ghost predicate Comes(us: seq<Unit>, size: nat, x: nat, y: nat) {
    Total(us) == size && (x < size ==> Mirror(us, x) == y)
  }

  lemma {:induction false} SkipComes(n: nat, x: nat)
    ensures Comes(Skip(n), n, x, x)
  {
    RepeatIs(n, [Plain], Plain);
    MirrorPlains(Skip(n), x);
  }

  lemma {:induction false} PointsCome(n: nat, x: nat)
    ensures Comes(Points(n), 4 * n, x, Shorts(x, 0, 2 * n))
  {
    RepeatIs(n, [Short, Short], Short);
    MirrorShorts(Points(n), x);
  }

  lemma {:induction false} ShortsCome(us: seq<Unit>, n: nat, x: nat)
    requires AllOf(us, Short) && |us| == n
    ensures Comes(us, 2 * n, x, Shorts(x, 0, n))
  {
    MirrorShorts(us, x);
  }

  lemma {:induction false} IntsCome(us: seq<Unit>, n: nat, x: nat)
    requires AllOf(us, Int) && |us| == n
    ensures Comes(us, 4 * n, x, Ints(x, 0, n))
  {
    MirrorInts(us, x);
  }

  lemma {:induction false} NoneCome(x: nat)
    ensures Comes([], 0, x, x)
  {
  }

  lemma {:induction false} ComesSum(a: seq<Unit>, b: seq<Unit>, c: seq<Unit>, d: seq<Unit>, na: nat, nb: nat, nc: nat, nd: nat,
                                    x: nat, ya: nat, yb: nat, yc: nat, yd: nat)
    requires Comes(a, na, x, ya) && Comes(b, nb, From(x, na), yb)
    requires Comes(c, nc, From(x, na + nb), yc) && Comes(d, nd, From(x, na + nb + nc), yd)
    ensures Comes(a + b + c + d, na + nb + nc + nd, x,
      if x < na then ya else if x < na + nb then na + yb else if x < na + nb + nc then na + nb + yc else na + nb + nc + yd)
  {
    Sum4(a, b, c, d);
    if x < na + nb + nc + nd {
      MirrorSum(a, b, c, d, na, nb, nc, nd, x);
    }
  }

  lemma {:induction false} MembersFrom(x: nat, o: nat, n: nat)
    requires x >= o
    ensures Shorts(x, o, n) == o + Shorts(x - o, 0, n) && Ints(x, o, n) == o + Ints(x - o, 0, n)
  {
  }

  // ---------------------------------------------------------------- class by class

  lemma {:induction false} CommandPlaces(x: nat)
    ensures Comes([Plain, Plain] + [Short, Short] + [Int] + [], 10, x, Source(Command, x))
  {
    MirrorPlains([Plain, Plain], x);
    ShortsCome([Short, Short], 2, From(x, 2));
    IntsCome([Int], 1, From(x, 6));
    NoneCome(From(x, 10));
    ComesSum([Plain, Plain], [Short, Short], [Int], [], 2, 4, 4, 0, x, x, Shorts(From(x, 2), 0, 2), Ints(From(x, 6), 0, 1), From(x, 10));
  }

  lemma {:induction false} BaseInfoPlaces(x: nat)
    ensures Comes(Skip(62) + [Int] + Skip(1) + [], 67, x, Source(BaseInfo, x))
  {
    SkipComes(62, x);
    IntsCome([Int], 1, From(x, 62));
    SkipComes(1, From(x, 66));
    NoneCome(From(x, 67));
    ComesSum(Skip(62), [Int], Skip(1), [], 62, 4, 1, 0, x, x, Ints(From(x, 62), 0, 1), From(x, 66), From(x, 67));
  }

  lemma {:induction false} NetworkFront(x: nat)
    ensures Comes(Skip(64) + [Int, Int] + Skip(53) + [Int, Int, Short], 135, x,
      if x < 64 then x else if x < 72 then 64 + Ints(From(x, 64), 0, 2) else if x < 125 then 72 + From(x, 72)
      else 125 + Shorts(Ints(From(x, 125), 0, 2), 8, 1))
  {
    SkipComes(64, x);
    IntsCome([Int, Int], 2, From(x, 64));
    SkipComes(53, From(x, 72));
    ThreeMembers(From(x, 125));
    ComesSum(Skip(64), [Int, Int], Skip(53), [Int, Int, Short], 64, 8, 53, 10, x,
             x, Ints(From(x, 64), 0, 2), From(x, 72), Shorts(Ints(From(x, 125), 0, 2), 8, 1));
  }

  lemma {:induction false} NetworkOffsets(x: nat)
    requires x < 167
    ensures Source(NetworkInfo, x) ==
      if x < 64 then x else if x < 72 then 64 + Ints(From(x, 64), 0, 2) else if x < 125 then 72 + From(x, 72)
      else if x < 135 then 125 + Shorts(Ints(From(x, 125), 0, 2), 8, 1) else 135 + From(x, 135)
  {
    if x >= 64 {
      MembersFrom(x, 64, 2);
    }
    if x >= 125 {
      MembersFrom(x, 125, 2);
    }
    if x >= 133 {
      MembersFrom(x, 133, 1);
    }
  }

  lemma {:induction false} NetworkPlaces(x: nat)
    ensures Comes(Skip(64) + [Int, Int] + Skip(53) + [Int, Int, Short] + Skip(32) + [] + [], 167, x,
                  if x < 167 then Source(NetworkInfo, x) else x)
  {
    var front := Skip(64) + [Int, Int] + Skip(53) + [Int, Int, Short];
    var y := if x < 64 then x else if x < 72 then 64 + Ints(From(x, 64), 0, 2) else if x < 125 then 72 + From(x, 72)
             else 125 + Shorts(Ints(From(x, 125), 0, 2), 8, 1);
    NetworkFront(x);
    SkipComes(32, From(x, 135));
    NoneCome(From(x, 167));
    ComesSum(front, Skip(32), [], [], 135, 32, 0, 0, x, y, From(x, 135), From(x, 167), From(x, 167));
    if x < 167 {
      NetworkOffsets(x);
    }
  }

  lemma {:induction false} ThreeMembers(x: nat)
    ensures Comes([Int, Int, Short], 10, x, Shorts(Ints(x, 0, 2), 8, 1))
  {
    assert [Int, Int, Short] == [Int, Int] + [Short] + [] + [];
    IntsCome([Int, Int], 2, x);
    ShortsCome([Short], 1, From(x, 8));
    NoneCome(From(x, 10));
    ComesSum([Int, Int], [Short], [], [], 8, 2, 0, 0, x, Ints(x, 0, 2), Shorts(From(x, 8), 0, 1), From(x, 10), From(x, 10));
  }

  /** Shorts, and then nothing to convert. */
  lemma {:induction false} ShortsFirst(us: seq<Unit>, k: nat, n: nat, x: nat)
    requires AllOf(us, Short) && |us| == k
    ensures Comes(us + Skip(n) + [] + [], 2 * k + n, x, Shorts(x, 0, k))
  {
    ShortsCome(us, k, x);
    SkipComes(n, From(x, 2 * k));
    NoneCome(From(x, 2 * k + n));
    ComesSum(us, Skip(n), [], [], 2 * k, n, 0, 0, x, Shorts(x, 0, k), From(x, 2 * k), From(x, 2 * k + n), From(x, 2 * k + n));
  }

  lemma {:induction false} NtpPlaces(x: nat)
    ensures Comes(Skip(16) + [Int, Int] + [] + [], 24, x, Source(Ntp, x))
  {
    SkipComes(16, x);
    IntsCome([Int, Int], 2, From(x, 16));
    NoneCome(From(x, 24));
    ComesSum(Skip(16), [Int, Int], [], [], 16, 8, 0, 0, x, x, Ints(From(x, 16), 0, 2), From(x, 24), From(x, 24));
    if x >= 16 {
      MembersFrom(x, 16, 2);
    }
  }

  lemma {:induction false} EventAreaOffsets(x: nat)
    ensures InEventArea(x) ==
      if x < 1 then x else if x < 17 then 1 + Shorts(From(x, 1), 0, 8) else if x < 25 then 17 + Ints(From(x, 17), 0, 2)
      else 25 + From(x, 25)
  {
    if x >= 17 {
      MembersFrom(x, 17, 2);
    } else if x >= 1 {
      MembersFrom(x, 1, 8);
    }
  }

  lemma {:induction false} EventAreaPlaces(x: nat)
    ensures Comes(EventAreaUnits(), 90, x, InEventArea(x))
  {
    SkipComes(1, x);
    PointsCome(4, From(x, 1));
    IntsCome([Int, Int], 2, From(x, 17));
    SkipComes(65, From(x, 25));
    ComesSum(Skip(1), Points(4), [Int, Int], Skip(65), 1, 16, 8, 65, x,
             x, Shorts(From(x, 1), 0, 8), Ints(From(x, 17), 0, 2), From(x, 25));
    EventAreaOffsets(x);
  }

  lemma {:induction false} LaneOffsets(x: nat)
    requires x < 53
    ensures InLane(x) ==
      if x < 4 then Ints(x, 0, 1) else if x < 5 then 4 + From(x, 4) else 5 + Shorts(From(x, 5), 0, 24)
  {
    if x >= 5 {
      MembersFrom(x, 5, 24);
    }
  }

  lemma {:induction false} LanePlaces(x: nat)
    ensures Comes([Int] + Skip(1) + Points(12) + [], 53, x, if x < 53 then InLane(x) else x)
  {
    IntsCome([Int], 1, x);
    SkipComes(1, From(x, 4));
    PointsCome(12, From(x, 5));
    NoneCome(From(x, 53));
    ComesSum([Int], Skip(1), Points(12), [], 4, 1, 48, 0, x, Ints(x, 0, 1), From(x, 4), Shorts(From(x, 5), 0, 24), From(x, 53));
    if x < 53 {
      LaneOffsets(x);
    }
  }

  lemma {:induction false} ParamOffsets(x: nat)
    requires x < 36
    ensures InParam(x) ==
      if x < 2 then Shorts(x, 0, 1) else if x < 18 then 2 + Ints(From(x, 2), 0, 4) else 18 + Shorts(From(x, 18), 0, 9)
  {
    if x >= 18 {
      MembersFrom(x, 18, 9);
    } else if x >= 2 {
      MembersFrom(x, 2, 4);
    }
  }

  lemma {:induction false} ParamPlaces(x: nat)
    ensures Comes(NightUnits() + [], 36, x, if x < 36 then InParam(x) else x)
  {
    var ints, shorts := Repeat(4, [Int]), Repeat(9, [Short]);
    RepeatIs(4, [Int], Int);
    RepeatIs(9, [Short], Short);
    ShortsCome([Short], 1, x);
    IntsCome(ints, 4, From(x, 2));
    ShortsCome(shorts, 9, From(x, 18));
    NoneCome(From(x, 36));
    ComesSum([Short], ints, shorts, [], 2, 16, 18, 0, x, Shorts(x, 0, 1), Ints(From(x, 2), 0, 4), Shorts(From(x, 18), 0, 9), From(x, 36));
    if x < 36 {
      ParamOffsets(x);
    }
  }

  lemma {:induction false} PersonAreaPlaces(x: nat)
    ensures Comes(Skip(1) + Points(6) + [] + [], 25, x, InPersonArea(x))
  {
    SkipComes(1, x);
    PointsCome(6, From(x, 1));
    NoneCome(From(x, 25));
    ComesSum(Skip(1), Points(6), [], [], 1, 24, 0, 0, x, x, Shorts(From(x, 1), 0, 12), From(x, 25), From(x, 25));
  }

  /** Rows of shorts that follow one another are one row. */
  lemma {:induction false} RowsJoin(x: nat, p: nat, m: nat, n: nat)
    ensures x < p + 2 * m ==> Shorts(x, p, m + n) == Shorts(x, p, m)
    ensures x >= p + 2 * m ==> Shorts(x, p, m + n) == Shorts(x, p + 2 * m, n)
    ensures x >= p ==> Shorts(x, p, m) == p + Shorts(From(x, p), 0, m)
  {
  }

  lemma {:induction false} MarkPlaces(x: nat)
    ensures Comes(MarkUnits(), 217, x, if x < 217 then Shorts(x, 1, 108) else x)
  {
    var values := Repeat(4, [Short, Short, Short]);
    RepeatIs(4, [Short, Short, Short], Short);
    SkipComes(1, x);
    PointsCome(32, From(x, 1));
    ShortsCome(values, 12, From(x, 129));
    PointsCome(16, From(x, 153));
    MarkPieces(Skip(1), Points(32), values, Points(16), x);
  }

  lemma {:induction false} MarkPieces(a: seq<Unit>, b: seq<Unit>, c: seq<Unit>, d: seq<Unit>, x: nat)
    requires Comes(a, 1, x, x) && Comes(b, 128, From(x, 1), Shorts(From(x, 1), 0, 64))
    requires Comes(c, 24, From(x, 129), Shorts(From(x, 129), 0, 12)) && Comes(d, 64, From(x, 153), Shorts(From(x, 153), 0, 32))
    ensures Comes(a + b + c + d, 217, x, if x < 217 then Shorts(x, 1, 108) else x)
  {
    ComesSum(a, b, c, d, 1, 128, 24, 64, x, x, Shorts(From(x, 1), 0, 64), Shorts(From(x, 129), 0, 12), Shorts(From(x, 153), 0, 32));
    if x < 217 {
      MarkRows(x);
    }
  }

  lemma {:induction false} MarkRows(x: nat)
    requires x < 217
    ensures Shorts(x, 1, 108) ==
      if x < 1 then x else if x < 129 then 1 + Shorts(From(x, 1), 0, 64)
      else if x < 153 then 129 + Shorts(From(x, 129), 0, 12) else 153 + Shorts(From(x, 153), 0, 32)
  {
    RowsJoin(x, 1, 64, 44);
    RowsJoin(x, 129, 12, 32);
    RowsJoin(x, 153, 32, 0);
  }

  /** One byte that stays, and `n` entries alike of `w` bytes each: byte `y` of entry `k`. */
  lemma {:induction false} EntriesCome(us: seq<Unit>, n: nat, w: nat, x: nat, k: nat, y: nat, z: nat)
    requires Comes(us, w, y, z) && y < w && (x == 0 || x == 1 + k * w + y)
    ensures Comes(Skip(1) + Repeat(n, us), 1 + n * w, x, if x < 1 then x else 1 + k * w + z)
  {
    SkipComes(1, x);
    TotalRepeat(n, us, w);
    TotalConcat(Skip(1), Repeat(n, us));
    if x < 1 + n * w {
      MirrorConcat(Skip(1), Repeat(n, us), x);
      if x >= 1 {
        InsideRow(k, n, w, y);
        MirrorRepeat(n, us, w, k, y);
      }
    }
  }

  lemma {:induction false} InsideRow(k: nat, n: nat, w: nat, y: nat)
    requires k * w + y < n * w
    ensures k < n
  {
    assert k * w - n * w == (k - n) * w;
    if k >= n {
      ProductNonNegative(k - n, w);
    }
  }

  lemma {:induction false} LaneComes(x: nat)
    ensures Comes([Int] + Skip(1) + Points(12), 53, x, InLane(x))
  {
    LanePlaces(x);
    var lane := [Int] + Skip(1) + Points(12);
    assert lane + [] == lane;
  }

  lemma {:induction false} LanesPlaces(x: nat)
    ensures Comes(Skip(1) + Repeat(8, [Int] + Skip(1) + Points(12)), 425, x,
                  if x < 1 then x else 1 + (x - 1) / 53 * 53 + InLane((x - 1) % 53))
  {
    var k, y := From(x, 1) / 53, From(x, 1) % 53;
    LaneComes(y);
    EntriesCome([Int] + Skip(1) + Points(12), 8, 53, x, k, y, InLane(y));
  }

  lemma {:induction false} AreaComes(x: nat)
    ensures Comes(Skip(1) + Points(6), 25, x, InPersonArea(x))
  {
    PersonAreaPlaces(x);
    var area := Skip(1) + Points(6);
    assert area + [] + [] == area;
  }

  lemma {:induction false} PersonsPlaces(x: nat)
    ensures Comes(Skip(1) + Repeat(8, Skip(1) + Points(6)), 201, x,
                  if x < 1 then x else 1 + (x - 1) / 25 * 25 + InPersonArea((x - 1) % 25))
  {
    var k, y := From(x, 1) / 25, From(x, 1) % 25;
    AreaComes(y);
    EntriesCome(Skip(1) + Points(6), 8, 25, x, k, y, InPersonArea(y));
  }

  lemma {:induction false} EventPlaces(x: nat)
    ensures Comes(Skip(1) + Repeat(8, EventAreaUnits()), 721, x, Source(EventInfo, x))
  {
    var k, y := From(x, 1) / 90, From(x, 1) % 90;
    EventAreaPlaces(y);
    EntriesCome(EventAreaUnits(), 8, 90, x, k, y, InEventArea(y));
  }

  lemma {:induction false} ParamsPlaces(x: nat)
    ensures Comes(Repeat(2, NightUnits()), 72, x, x / 36 * 36 + InParam(x % 36))
  {
    ParamPlaces(x % 36);
    assert NightUnits() + [] == NightUnits();
    TotalRepeat(2, NightUnits(), 36);
    if x < 72 {
      MirrorRepeat(2, NightUnits(), 36, x / 36, x % 36);
    }
  }

  lemma {:induction false} ViewOffsets(x: nat)
    requires x < 127
    ensures Ints(Shorts(x, 104, 1), 123, 1) ==
      if x < 104 then x else if x < 106 then 104 + Shorts(From(x, 104), 0, 1) else if x < 123 then 106 + From(x, 106)
      else 123 + Ints(From(x, 123), 0, 1)
  {
    if x >= 123 {
      MembersFrom(x, 123, 1);
    } else if x >= 104 {
      MembersFrom(x, 104, 1);
    }
  }

  lemma {:induction false} ViewPlaces(x: nat)
    ensures Comes(Skip(104) + [Short] + Skip(17) + [Int], 127, x, if x < 127 then Ints(Shorts(x, 104, 1), 123, 1) else x)
  {
    SkipComes(104, x);
    ShortsCome([Short], 1, From(x, 104));
    SkipComes(17, From(x, 106));
    IntsCome([Int], 1, From(x, 123));
    ComesSum(Skip(104), [Short], Skip(17), [Int], 104, 2, 17, 4, x, x, Shorts(From(x, 104), 0, 1), From(x, 106), Ints(From(x, 123), 0, 1));
    if x < 127 {
      ViewOffsets(x);
    }
  }

  lemma {:induction false} PlaceOffsets(x: nat)
    requires x < 157
    ensures Shorts(Ints(x, 40, 1), 145, 6) ==
      if x < 40 then x else if x < 44 then 40 + Ints(From(x, 40), 0, 1) else if x < 145 then 44 + From(x, 44)
      else 145 + Shorts(From(x, 145), 0, 6)
  {
    if x >= 145 {
      MembersFrom(x, 145, 6);
    } else if x >= 40 {
      MembersFrom(x, 40, 1);
    }
  }

  lemma {:induction false} PlacePlaces(x: nat)
    ensures Comes(Skip(40) + [Int] + Skip(101) + Repeat(6, [Short]), 157, x, if x < 157 then Shorts(Ints(x, 40, 1), 145, 6) else x)
  {
    var shorts := Repeat(6, [Short]);
    RepeatIs(6, [Short], Short);
    SkipComes(40, x);
    IntsCome([Int], 1, From(x, 40));
    SkipComes(101, From(x, 44));
    ShortsCome(shorts, 6, From(x, 145));
    ComesSum(Skip(40), [Int], Skip(101), shorts, 40, 4, 101, 12, x, x, Ints(From(x, 40), 0, 1), From(x, 44), Shorts(From(x, 145), 0, 6));
    if x < 157 {
      PlaceOffsets(x);
    }
  }

  lemma {:induction false} OtherPlaces(x: nat)
    ensures Comes(OtherUnits() + [] + [], 284, x,
                  if x < 127 then Ints(Shorts(x, 104, 1), 123, 1) else 127 + Shorts(Ints(From(x, 127), 40, 1), 145, 6))
  {
    var front, back := Skip(104) + [Short] + Skip(17) + [Int], Skip(40) + [Int] + Skip(101) + Repeat(6, [Short]);
    ViewPlaces(x);
    PlacePlaces(From(x, 127));
    NoneCome(From(x, 284));
    ComesSum(front, back, [], [], 127, 157, 0, 0, x, Ints(Shorts(x, 104, 1), 123, 1),
             Shorts(Ints(From(x, 127), 40, 1), 145, 6), From(x, 284), From(x, 284));
  }

  function LaneSource(x: nat): nat {
    if x < 1 then x else 1 + (x - 1) / 53 * 53 + InLane((x - 1) % 53)
  }

  function PersonSource(x: nat): nat {
    if x < 1 then x else 1 + (x - 1) / 25 * 25 + InPersonArea((x - 1) % 25)
  }

  function ParamSource(x: nat): nat {
    x / 36 * 36 + InParam(x % 36)
  }

  function OtherSource(x: nat): nat {
    if x < 127 then Ints(Shorts(x, 104, 1), 123, 1) else 127 + Shorts(Ints(From(x, 127), 40, 1), 145, 6)
  }

  /** The offsets from the start of the message. */
  lemma {:induction false} AlgOffsets(x: nat)
    requires x < 1199
    ensures InAlgInfo(x) ==
      if x < 425 then LaneSource(x) else if x < 642 then 425 + Shorts(From(x, 425), 1, 108)
      else if x < 714 then 642 + ParamSource(From(x, 642)) else if x < 915 then 714 + PersonSource(From(x, 714))
      else 915 + OtherSource(From(x, 915))
  {
    if 425 <= x < 642 {
      RowMoves(x, 425, 1, 108);
    } else if x >= 915 {
      OtherOffsets(x);
    }
  }

  lemma {:induction false} OtherOffsets(x: nat)
    requires 915 <= x < 1199
    ensures Shorts(Ints(Ints(Shorts(x, 1019, 1), 1038, 1), 1082, 1), 1187, 6) == 915 + OtherSource(x - 915)
  {
  }

  lemma {:induction false} RowMoves(x: nat, o: nat, p: nat, n: nat)
    requires x >= o
    ensures Shorts(x, o + p, n) == o + Shorts(x - o, p, n)
  {
  }

  function FrontSource(x: nat): nat {
    if x < 425 then LaneSource(x) else if x < 642 then 425 + Shorts(From(x, 425), 1, 108)
    else if x < 714 then 642 + ParamSource(From(x, 642)) else 714 + PersonSource(From(x, 714))
  }

  lemma {:induction false} FrontPlaces(lanes: seq<Unit>, marks: seq<Unit>, nights: seq<Unit>, persons: seq<Unit>, x: nat)
    requires Comes(lanes, 425, x, LaneSource(x)) && Comes(marks, 217, From(x, 425), Shorts(From(x, 425), 1, 108))
    requires Comes(nights, 72, From(x, 642), ParamSource(From(x, 642))) && Comes(persons, 201, From(x, 714), PersonSource(From(x, 714)))
    ensures Comes(lanes + marks + nights + persons, 915, x, FrontSource(x))
  {
    ComesSum(lanes, marks, nights, persons, 425, 217, 72, 201, x,
             LaneSource(x), Shorts(From(x, 425), 1, 108), ParamSource(From(x, 642)), PersonSource(From(x, 714)));
  }

  lemma {:induction false} BackPlaces(front: seq<Unit>, other: seq<Unit>, x: nat)
    requires Comes(front, 915, x, FrontSource(x)) && other == OtherUnits() + [] + []
    ensures Comes(front + other + [] + [], 1199, x, if x < 915 then FrontSource(x) else 915 + OtherSource(From(x, 915)))
  {
    OtherPlaces(From(x, 915));
    NoneCome(From(x, 1199));
    ComesSum(front, other, [], [], 915, 284, 0, 0, x, FrontSource(x), OtherSource(From(x, 915)), From(x, 1199), From(x, 1199));
  }

  lemma {:induction false} LanesCome(x: nat)
    ensures Comes(LaneUnits(), 425, x, LaneSource(x))
  {
    LanesPlaces(x);
  }

  lemma {:induction false} MarksCome(x: nat)
    ensures Comes(MarkUnits(), 217, x, Shorts(x, 1, 108))
  {
    MarkPlaces(x);
  }

  lemma {:induction false} ParamsCome(x: nat)
    ensures Comes(Repeat(2, NightUnits()), 72, x, ParamSource(x))
  {
    ParamsPlaces(x);
  }

  lemma {:induction false} PersonsCome(x: nat)
    ensures Comes(PersonUnits(), 201, x, PersonSource(x))
  {
    PersonsPlaces(x);
  }

  lemma {:induction false} AlgFront(x: nat)
    ensures Comes(LaneUnits() + MarkUnits() + Repeat(2, NightUnits()) + PersonUnits(), 915, x, FrontSource(x))
  {
    LanesCome(x);
    MarksCome(From(x, 425));
    ParamsCome(From(x, 642));
    PersonsCome(From(x, 714));
    FrontPlaces(LaneUnits(), MarkUnits(), Repeat(2, NightUnits()), PersonUnits(), x);
  }

  lemma {:induction false} NoTail(front: seq<Unit>, back: seq<Unit>)
    ensures front + (back + [] + []) + [] + [] == front + back
  {
  }

  lemma {:induction false} AlgPlaces(us: seq<Unit>, front: seq<Unit>, x: nat)
    requires front == LaneUnits() + MarkUnits() + Repeat(2, NightUnits()) + PersonUnits() && us == front + OtherUnits()
    ensures Comes(us, 1199, x, if x < 1199 then InAlgInfo(x) else x)
  {
    AlgFront(x);
    BackPlaces(front, OtherUnits() + [] + [], x);
    NoTail(front, OtherUnits());
    AlgSame(us, x, if x < 915 then FrontSource(x) else 915 + OtherSource(From(x, 915)));
  }

  lemma {:induction false} AlgSame(us: seq<Unit>, x: nat, y: nat)
    requires Comes(us, 1199, x, y) && y == if x < 915 then FrontSource(x) else 915 + OtherSource(From(x, 915))
    ensures Comes(us, 1199, x, if x < 1199 then InAlgInfo(x) else x)
  {
    if x < 1199 {
      AlgOffsets(x);
    }
  }

  lemma {:induction false} PeriodPlaces(c: Class, us: seq<Unit>, x: nat)
    requires LayoutOf(c) == Fixed(us) && (c.Date? || c.StatiscInfo? || c.SerialInfo?)
    ensures Comes(us, WireSize(c), x, if x < WireSize(c) then Source(c, x) else 0)
  {
    match c
    case Date =>
      assert us == [Short] + Skip(5) + [] + [];
      ShortsFirst([Short], 1, 5, x);
    case StatiscInfo =>
      assert us == [Short] + Skip(6) + [] + [];
      ShortsFirst([Short], 1, 6, x);
    case SerialInfo =>
      assert us == [Short, Short, Short] + Skip(3) + [] + [];
      ShortsFirst([Short, Short, Short], 3, 3, x);
  }

  lemma {:induction false} ShortPlaces(c: Class, us: seq<Unit>, x: nat)
    requires LayoutOf(c) == Fixed(us) && (c.Command? || c.Date? || c.StatiscInfo? || c.SerialInfo? || c.ChangeTime?)
    ensures Comes(us, WireSize(c), x, if x < WireSize(c) then Source(c, x) else 0)
  {
    if c.Command? {
      assert us == [Plain, Plain] + [Short, Short] + [Int] + [];
      CommandPlaces(x);
    } else if c.ChangeTime? {
      IntsCome(us, 4, x);
    } else {
      PeriodPlaces(c, us, x);
    }
  }

  lemma {:induction false} IntPlaces(c: Class, us: seq<Unit>, x: nat)
    requires LayoutOf(c) == Fixed(us) && (c.BaseInfo? || c.NetworkInfo? || c.Ntp?)
    ensures Comes(us, WireSize(c), x, if x < WireSize(c) then Source(c, x) else 0)
  {
    match c
    case BaseInfo =>
      assert us == Skip(62) + [Int] + Skip(1) + [];
      BaseInfoPlaces(x);
    case NetworkInfo =>
      assert us == Skip(64) + [Int, Int] + Skip(53) + [Int, Int, Short] + Skip(32) + [] + [];
      NetworkPlaces(x);
    case Ntp =>
      assert us == Skip(16) + [Int, Int] + [] + [];
      NtpPlaces(x);
  }

  /** For every class with fixed members: each byte of a converted message comes from where the
      structure says, and so the members lie where it says, and nowhere else. */
  lemma {:induction false} PlacesAre(c: Class, us: seq<Unit>, x: nat)
    requires LayoutOf(c) == Fixed(us)
    ensures Comes(us, WireSize(c), x, if x < WireSize(c) then Source(c, x) else 0)
  {
    if c.SysInfo? {
      SkipComes(160, x);
    } else if c.ProtocolInfo? {
      SkipComes(1, x);
    } else if c.CameraStatus? {
      SkipComes(101, x);
    } else if c.AlgInfo? {
      AlgPlaces(us, LaneUnits() + MarkUnits() + Repeat(2, NightUnits()) + PersonUnits(), x);
    } else if c.EventInfo? {
      EventPlaces(x);
    } else if c.BaseInfo? || c.NetworkInfo? || c.Ntp? {
      IntPlaces(c, us, x);
    } else {
      ShortPlaces(c, us, x);
    }
  }

  /** So for what the conversion leaves in the buffer. */
  lemma {:induction false} EveryByteHasItsPlace(c: Class, b: seq<Byte>, r: seq<Byte>, x: nat)
    requires !c.PersonAreaTimes? && Converted(LayoutOf(c), b, r) && x < |b|
    ensures var y := if x < WireSize(c) then Source(c, x) else x; y < |b| && r[x] == b[y]
  {
    var us := LayoutOf(c).units;
    PlacesAre(c, us, x);
    if x < WireSize(c) {
      MirroredByte(us, b, r, 0, x, Source(c, x));
    }
  }
}
