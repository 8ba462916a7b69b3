/** Host and network byte order of whole messages, converted in place (zen_rtsp/client_obj.c,
    with the packed structures of zen_rtsp/client_obj.h).  The host is little-endian. */
module NetConvert {
  import opened PlanConversion

  const HEAD_SIZE := 10

  /** A message is a row of bytes that stay, shorts and ints. */
  datatype Unit = Plain | Short | Int

  function Width(u: Unit): (w: nat)
    ensures w > 0
  {
    match u
    case Plain => 1
    case Short => 2
    case Int => 4
  }

  function Total(us: seq<Unit>): nat {
    if us == [] then 0 else Width(us[0]) + Total(us[1..])
  }

  /** Where member `k` starts. */
  function Offset(us: seq<Unit>, k: nat): nat
    requires k <= |us|
  {
    if k == 0 then 0 else Width(us[0]) + Offset(us[1..], k - 1)
  }

  // ---------------------------------------------------------------- the structures

  function Repeat(n: nat, us: seq<Unit>): (r: seq<Unit>) {
    if n == 0 then [] else Repeat(n - 1, us) + us
  }

  function Skip(n: nat): seq<Unit> {
    Repeat(n, [Plain])
  }

  datatype Class =
    | Command | BaseInfo | SysInfo | NetworkInfo | AlgInfo | Date | StatiscInfo | ChangeTime | SerialInfo
    | ProtocolInfo | Ntp | CameraStatus | EventInfo | PersonAreaTimes

  function Points(n: nat): seq<Unit> {
    Repeat(n, [Short, Short])
  }

  /** The lanes of mCamDetectParam, with their coils. */
  function LaneUnits(): seq<Unit> {
    Skip(1) + Repeat(8, [Int] + Skip(1) + Points(12))
  }

  /** Its lane lines, standard points and areas. */
  function MarkUnits(): seq<Unit> {
    Skip(1) + Points(32) + Repeat(4, [Short, Short, Short]) + Points(16)
  }

  /** A set of detection parameters, for the day or the night. */
  function NightUnits(): seq<Unit> {
    [Short] + Repeat(4, [Int]) + Repeat(9, [Short])
  }

  function PersonUnits(): seq<Unit> {
    Skip(1) + Repeat(8, Skip(1) + Points(6))
  }

  /** The rest, and the camera's place. */
  function OtherUnits(): seq<Unit> {
    (Skip(104) + [Short] + Skip(17) + [Int]) + (Skip(40) + [Int] + Skip(101) + Repeat(6, [Short]))
  }

  function EventAreaUnits(): seq<Unit> {
    Skip(1) + Points(4) + [Int, Int] + Skip(65)
  }

  /** A message: members as they lie in memory, or the plans of all areas, whose members
      depend on the plan counts in the message. */
  datatype Layout = Fixed(units: seq<Unit>) | Plans

  function LayoutOf(c: Class): Layout {
    match c
    case Command => Fixed([Plain, Plain, Short, Short, Int])
    case BaseInfo => Fixed(Skip(62) + [Int] + Skip(1))
    case SysInfo => Fixed(Skip(160))
    case NetworkInfo => Fixed(Skip(64) + [Int, Int] + Skip(53) + [Int, Int, Short] + Skip(32))
    case AlgInfo => Fixed(LaneUnits() + MarkUnits() + Repeat(2, NightUnits()) + PersonUnits() + OtherUnits())
    case Date => Fixed([Short] + Skip(5))
    case StatiscInfo => Fixed([Short] + Skip(6))
    case ChangeTime => Fixed([Int, Int, Int, Int])
    case SerialInfo => Fixed([Short, Short, Short] + Skip(3))
    case ProtocolInfo => Fixed(Skip(1))
    case Ntp => Fixed(Skip(16) + [Int, Int])
    case CameraStatus => Fixed(Skip(101))
    case EventInfo => Fixed(Skip(1) + Repeat(8, EventAreaUnits()))
    case PersonAreaTimes => Plans
  }

  /** `get_obj_len` */
  function SizeOf(m: Layout): nat {
    if m.Plans? then TIMES_SIZE else Total(m.units)
  }

  lemma {:induction false} TotalConcat(us: seq<Unit>, vs: seq<Unit>)
    ensures Total(us + vs) == Total(us) + Total(vs)
  {
    if us == [] {
      assert us + vs == vs;
    } else {
      assert (us + vs)[1..] == us[1..] + vs;
      TotalConcat(us[1..], vs);
    }
  }

  lemma {:induction false} Sum4(a: seq<Unit>, b: seq<Unit>, c: seq<Unit>, d: seq<Unit>)
    ensures Total(a + b) == Total(a) + Total(b)
    ensures Total(a + b + c) == Total(a) + Total(b) + Total(c)
    ensures Total(a + b + c + d) == Total(a) + Total(b) + Total(c) + Total(d)
  {
    TotalConcat(a, b);
    TotalConcat(a + b, c);
    TotalConcat(a + b + c, d);
  }

  lemma {:induction false} TotalRepeat(n: nat, us: seq<Unit>, w: nat)
    requires Total(us) == w
    ensures Total(Repeat(n, us)) == n * w
  {
    if n > 0 {
      TotalRepeat(n - 1, us, w);
      TotalConcat(Repeat(n - 1, us), us);
      assert (n - 1) * w + w == n * w;
    }
  }

  lemma {:induction false} TotalSkip(n: nat)
    ensures Total(Skip(n)) == n
  {
    TotalRepeat(n, [Plain], 1);
  }

  lemma {:induction false} TotalPoints(n: nat)
    ensures Total(Points(n)) == 4 * n
  {
    assert [Short, Short][1..] == [Short];
    TotalRepeat(n, [Short, Short], 4);
  }

  /** The lengths of the messages on the wire. */
  function WireSize(c: Class): nat {
    match c
    case Command => 10
    case BaseInfo => 67
    case SysInfo => 160
    case NetworkInfo => 167
    case AlgInfo => 1199
    case Date => 7
    case StatiscInfo => 8
    case ChangeTime => 16
    case SerialInfo => 9
    case ProtocolInfo => 1
    case Ntp => 24
    case CameraStatus => 101
    case EventInfo => 721
    case PersonAreaTimes => 3472
  }

  lemma {:induction false} Members()
    ensures Total([]) == 0 && Total([Short]) == 2 && Total([Int]) == 4
    ensures Total([Int, Int]) == 8 && Total([Int, Int, Short]) == 10 && Total([Int, Int, Int, Int]) == 16
    ensures Total([Short, Short, Short]) == 6 && Total([Plain, Plain, Short, Short, Int]) == 10
  {
    assert [Int, Int][1..] == [Int] && [Int, Int, Short][1..] == [Int, Short] && [Int, Short][1..] == [Short];
    assert [Int, Int, Int, Int][1..] == [Int, Int, Int] && [Int, Int, Int][1..] == [Int, Int];
    assert [Short, Short, Short][1..] == [Short, Short] && [Short, Short][1..] == [Short];
    assert [Plain, Plain, Short, Short, Int][1..] == [Plain, Short, Short, Int];
    assert [Plain, Short, Short, Int][1..] == [Short, Short, Int] && [Short, Short, Int][1..] == [Short, Int];
    assert [Short, Int][1..] == [Int];
  }

  /** `get_obj_len` agrees, for every class. */
  lemma {:induction false} ClassSizes(c: Class)
    ensures SizeOf(LayoutOf(c)) == WireSize(c)
  {
    Members();
    match c
    case Command =>
    case BaseInfo => TotalSkip(62); TotalSkip(1); Sum4(Skip(62), [Int], Skip(1), []);
    case SysInfo => TotalSkip(160);
    case NetworkInfo => NetworkSize();
    case AlgInfo => AlgSize();
    case Date => TotalSkip(5); Sum4([Short], Skip(5), [], []);
    case StatiscInfo => TotalSkip(6); Sum4([Short], Skip(6), [], []);
    case ChangeTime =>
    case SerialInfo => TotalSkip(3); Sum4([Short, Short, Short], Skip(3), [], []);
    case ProtocolInfo => TotalSkip(1);
    case Ntp => TotalSkip(16); Sum4(Skip(16), [Int, Int], [], []);
    case CameraStatus => TotalSkip(101);
    case EventInfo => EventSize();
    case PersonAreaTimes =>
  }

  lemma {:induction false} NetworkSize()
    ensures SizeOf(LayoutOf(NetworkInfo)) == WireSize(NetworkInfo)
  {
    Members();
    TotalSkip(64);
    TotalSkip(53);
    TotalSkip(32);
    Sum4(Skip(64), [Int, Int], Skip(53), [Int, Int, Short]);
    TotalConcat(Skip(64) + [Int, Int] + Skip(53) + [Int, Int, Short], Skip(32));
  }

  lemma {:induction false} EventAreaSize()
    ensures Total(EventAreaUnits()) == 90
  {
    Members();
    TotalSkip(1);
    TotalSkip(65);
    TotalPoints(4);
    Sum4(Skip(1), Points(4), [Int, Int], Skip(65));
  }

  lemma {:induction false} EventSize()
    ensures SizeOf(LayoutOf(EventInfo)) == WireSize(EventInfo)
  {
    EventAreaSize();
    TotalSkip(1);
    RepeatBehind(Skip(1), 8, EventAreaUnits(), 90);
  }

  lemma {:induction false} RepeatBehind(us: seq<Unit>, n: nat, vs: seq<Unit>, w: nat)
    requires Total(vs) == w
    ensures Total(us + Repeat(n, vs)) == Total(us) + n * w
  {
    TotalRepeat(n, vs, w);
    TotalConcat(us, Repeat(n, vs));
  }

  lemma {:induction false} AlgSize()
    ensures SizeOf(LayoutOf(AlgInfo)) == WireSize(AlgInfo)
  {
    LanesSize();
    MarksSize();
    NightSize();
    PersonsSize();
    OtherSize();
    TotalRepeat(2, NightUnits(), 36);
    Sum4(LaneUnits(), MarkUnits(), Repeat(2, NightUnits()), PersonUnits());
    TotalConcat(LaneUnits() + MarkUnits() + Repeat(2, NightUnits()) + PersonUnits(), OtherUnits());
  }

  lemma {:induction false} LanesSize()
    ensures Total(LaneUnits()) == 425
  {
    Members();
    TotalSkip(1);
    TotalPoints(12);
    Sum4([Int], Skip(1), Points(12), []);
    RepeatBehind(Skip(1), 8, [Int] + Skip(1) + Points(12), 53);
  }

  lemma {:induction false} MarksSize()
    ensures Total(MarkUnits()) == 217
  {
    Members();
    TotalSkip(1);
    TotalPoints(32);
    TotalPoints(16);
    TotalRepeat(4, [Short, Short, Short], 6);
    Sum4(Skip(1), Points(32), Repeat(4, [Short, Short, Short]), Points(16));
  }

  lemma {:induction false} NightSize()
    ensures Total(NightUnits()) == 36
  {
    Members();
    TotalRepeat(4, [Int], 4);
    TotalRepeat(9, [Short], 2);
    Sum4([Short], Repeat(4, [Int]), Repeat(9, [Short]), []);
  }

  lemma {:induction false} PersonsSize()
    ensures Total(PersonUnits()) == 201
  {
    TotalSkip(1);
    TotalPoints(6);
    TotalConcat(Skip(1), Points(6));
    RepeatBehind(Skip(1), 8, Skip(1) + Points(6), 25);
  }

  lemma {:induction false} OtherSize()
    ensures Total(OtherUnits()) == 284
  {
    Members();
    TotalSkip(104);
    TotalSkip(17);
    TotalSkip(40);
    TotalSkip(101);
    TotalRepeat(6, [Short], 2);
    var front, back := Skip(104) + [Short] + Skip(17) + [Int], Skip(40) + [Int] + Skip(101) + Repeat(6, [Short]);
    Sum4(Skip(104), [Short], Skip(17), [Int]);
    Sum4(Skip(40), [Int], Skip(101), Repeat(6, [Short]));
    TotalConcat(front, back);
  }

  /** How much of a buffer a conversion may touch.  The buffers of the service have 8192
      bytes, and the plan counts are not checked. */
  function Room(m: Layout): nat {
    if m.Plans? then REACH else Total(m.units)
  }

  // ---------------------------------------------------------------- which byte goes where

  /** `ntohs`, `htons`, `ntohl` and `htonl`: the byte that comes to place `d` of a member. */
  function Within(u: Unit, d: nat): (e: nat)
    requires d < Width(u)
    ensures e < Width(u)
  {
    if u.Plain? then d else Width(u) - 1 - d
  }

  function Mirror(us: seq<Unit>, x: nat): (y: nat)
    requires x < Total(us)
    ensures y < Total(us)
  {
    var w := Width(us[0]);
    if x < w then Within(us[0], x) else w + Mirror(us[1..], x - w)
  }

  ghost predicate Same(b: seq<Byte>, r: seq<Byte>, at: nat, size: nat) {
    |b| == |r| && at + size <= |b| && forall y {:trigger r[y]} :: at <= y < at + size ==> r[y] == b[y]
  }

  ghost predicate SameOutside(b: seq<Byte>, r: seq<Byte>, at: nat, size: nat) {
    |b| == |r| && forall y {:trigger r[y]} :: 0 <= y < |b| && (y < at || y >= at + size) ==> r[y] == b[y]
  }

  /** From `at` on, `r` has the members of `b` with their bytes reversed. */
  ghost predicate Mirrored(us: seq<Unit>, b: seq<Byte>, r: seq<Byte>, at: nat) {
    && |b| == |r| && at + Total(us) <= |b|
    && forall x :: 0 <= x < Total(us) ==> r[at + x] == b[at + Mirror(us, x)]
  }

  /** `r` is what `net_decode_obj` makes of the buffer `b` that starts with the message. */
  ghost predicate Converted(m: Layout, b: seq<Byte>, r: seq<Byte>) {
    && |r| == |b| >= Room(m)
    && if m.Plans? then r == Times(b) else Mirrored(m.units, b, r, 0) && SameOutside(b, r, 0, Total(m.units))
  }

  /** No area claims so many plans that their conversion reaches another plan count. */
  predicate Reversible(m: Layout, b: seq<Byte>) {
    m.Plans? ==> Contained(Counts(PERSON_AREAS_MAX, b))
  }

  // ---------------------------------------------------------------- there and back

  lemma {:induction false} MirrorTwice(us: seq<Unit>, x: nat)
    requires x < Total(us)
    ensures Mirror(us, Mirror(us, x)) == x
  {
    if x >= Width(us[0]) {
      MirrorTwice(us[1..], x - Width(us[0]));
    }
  }

  lemma {:induction false} MirroredBack(us: seq<Unit>, b: seq<Byte>, r: seq<Byte>, q: seq<Byte>, at: nat)
    requires Mirrored(us, b, r, at) && |q| == |b|
    ensures Mirrored(us, r, q, at) <==> Same(b, q, at, Total(us))
  {
    forall x | 0 <= x < Total(us) ensures r[at + Mirror(us, x)] == b[at + x] {
      MirrorTwice(us, x);
    }
    if Mirrored(us, r, q, at) {
      forall y | at <= y < at + Total(us) ensures q[y] == b[y] {
        assert q[at + (y - at)] == r[at + Mirror(us, y - at)];
      }
    }
  }

  /** For every layout: converting what was converted recovers it, and nothing else does. */
  lemma {:induction false} ConversionIsInvolution(m: Layout, b: seq<Byte>, r: seq<Byte>, q: seq<Byte>)
    requires Converted(m, b, r) && Reversible(m, b) && |q| == |b|
    ensures Reversible(m, r) && (Converted(m, r, q) <==> q == b)
  {
    if m.Plans? {
      TimesTwice(b);
    } else {
      MirroredBack(m.units, b, r, q, 0);
      if Converted(m, r, q) {
        forall y | 0 <= y < |b| ensures q[y] == b[y] {
          assert y >= Total(m.units) ==> q[y] == r[y] && r[y] == b[y];
        }
      }
    }
  }

  /** So it is for every class of message. */
  lemma {:induction false} EveryClassComesBack(c: Class, b: seq<Byte>, r: seq<Byte>, q: seq<Byte>)
    requires Converted(LayoutOf(c), b, r) && |q| == |b|
    requires c.PersonAreaTimes? ==> Contained(Counts(PERSON_AREAS_MAX, b))
    ensures Converted(LayoutOf(c), r, q) <==> q == b
  {
    ConversionIsInvolution(LayoutOf(c), b, r, q);
  }

  // ---------------------------------------------------------------- what the values mean

  /** The value of a short or an int as the host reads it, lowest byte first ... */
  function HostValue(u: Unit, b: seq<Byte>, at: nat): int
    requires at + Width(u) <= |b|
  {
    match u
    case Plain => b[at]
    case Short => Join(b[at], b[at + 1])
    case Int => Join(b[at], b[at + 1]) + 0x1_0000 * Join(b[at + 2], b[at + 3])
  }

  /** ... and as it travels, highest byte first. */
  function NetValue(u: Unit, b: seq<Byte>, at: nat): int
    requires at + Width(u) <= |b|
  {
    match u
    case Plain => b[at]
    case Short => Join(b[at + 1], b[at])
    case Int => 0x1_0000 * Join(b[at + 1], b[at]) + Join(b[at + 3], b[at + 2])
  }

  function Join(low: int, high: int): int {
    low + 0x100 * high
  }

  lemma {:induction false} MirrorAt(us: seq<Unit>, k: nat)
    requires k < |us|
    ensures Offset(us, k + 1) == Offset(us, k) + Width(us[k]) <= Total(us)
    ensures forall d :: 0 <= d < Width(us[k]) ==> Mirror(us, Offset(us, k) + d) == Offset(us, k) + Within(us[k], d)
  {
    if k > 0 {
      MirrorAt(us[1..], k - 1);
    }
  }

  /** Each member is read on the other side as it was meant, and the other way round. */
  lemma {:induction false} MeaningIsKept(us: seq<Unit>, b: seq<Byte>, r: seq<Byte>, at: nat, k: nat)
    requires Mirrored(us, b, r, at) && k < |us|
    ensures var u, p := us[k], at + Offset(us, k);
      p + Width(u) <= |b| && NetValue(u, r, p) == HostValue(u, b, p) && HostValue(u, r, p) == NetValue(u, b, p)
  {
    MirroredMember(us, b, r, at, k);
    ValueIsKept(us[k], b, r, at + Offset(us, k));
  }

  lemma {:induction false} MirroredByte(us: seq<Unit>, b: seq<Byte>, r: seq<Byte>, at: nat, x: nat, y: nat)
    requires Mirrored(us, b, r, at) && x < Total(us) && y == Mirror(us, x)
    ensures r[at + x] == b[at + y]
  {
  }

  lemma {:induction false} MirrorAtByte(us: seq<Unit>, k: nat, d: nat)
    requires k < |us| && d < Width(us[k])
    ensures Offset(us, k) + Width(us[k]) <= Total(us)
    ensures Mirror(us, Offset(us, k) + d) == Offset(us, k) + Within(us[k], d)
  {
    MirrorAt(us, k);
  }

  lemma {:induction false} MemberByte(us: seq<Unit>, b: seq<Byte>, r: seq<Byte>, at: nat, k: nat, p: nat, d: nat)
    requires Mirrored(us, b, r, at) && k < |us| && p == Offset(us, k) && d < Width(us[k])
    ensures p + Width(us[k]) <= Total(us) && r[at + p + d] == b[at + p + Within(us[k], d)]
  {
    MirrorAtByte(us, k, d);
    MirroredByte(us, b, r, at, p + d, p + Within(us[k], d));
  }

  lemma {:induction false} MirroredMember(us: seq<Unit>, b: seq<Byte>, r: seq<Byte>, at: nat, k: nat)
    requires Mirrored(us, b, r, at) && k < |us|
    ensures Offset(us, k) + Width(us[k]) <= Total(us)
    ensures Reversed(us[k], b, r, at + Offset(us, k))
  {
    MirrorAt(us, k);
    forall d | 0 <= d < Width(us[k]) ensures r[at + Offset(us, k) + d] == b[at + Offset(us, k) + Within(us[k], d)] {
      MemberByte(us, b, r, at, k, Offset(us, k), d);
    }
  }

  ghost predicate Reversed(u: Unit, b: seq<Byte>, r: seq<Byte>, at: nat) {
    && |b| == |r| && at + Width(u) <= |b|
    && forall x :: 0 <= x < Width(u) ==> r[at + x] == b[at + Within(u, x)]
  }

  lemma {:induction false} ValueIsKept(u: Unit, b: seq<Byte>, r: seq<Byte>, at: nat)
    requires Reversed(u, b, r, at)
    ensures at + Width(u) <= |b| == |r|
    ensures NetValue(u, r, at) == HostValue(u, b, at) && HostValue(u, r, at) == NetValue(u, b, at)
  {
    assert r[at + 0] == b[at + Within(u, 0)];
    if !u.Plain? {
      assert r[at + 1] == b[at + Within(u, 1)];
    }
    if u.Int? {
      assert r[at + 2] == b[at + Within(u, 2)];
      assert r[at + 3] == b[at + Within(u, 3)];
    }
  }

  /** The same for `noPersonTime` and `overTime` of every plan that counts, where every entry
      with another behind it has room for its plans; the rest of each plan stays. */
  lemma {:induction false} PlansAreKept(b: seq<Byte>, j: nat, i: nat)
    requires REACH <= |b| && Fitting(Counts(PERSON_AREAS_MAX, b), PERSON_AREAS_MAX - 1) && j < PERSON_AREAS_MAX && i < PLAN_MAX
    ensures PlanIsKept(b, Times(b), ENTRY_SIZE * j + 2 + PLAN_SIZE * i, i < PlanTotal(b, j))
  {
    FlipAtSwaps();
    PlanBytes(FlipAt, PERSON_AREAS_MAX, b, Times(b), j, i);
    PlanMeans(b, Times(b), ENTRY_SIZE * j + 2 + PLAN_SIZE * i, i < PlanTotal(b, j));
  }

  ghost predicate AllPlansKept(b: seq<Byte>) {
    forall j, i :: 0 <= j < PERSON_AREAS_MAX && 0 <= i < PLAN_MAX ==> KeepsPlan(b, j, i)
  }

  ghost predicate KeepsPlan(b: seq<Byte>, j: nat, i: nat) {
    PlanIsKept(b, Times(b), ENTRY_SIZE * j + 2 + PLAN_SIZE * i, i < PlanTotal(b, j))
  }

  /** And for all counts: the messages with these counts all keep their plans only there. */
  lemma {:induction false} PlansAreKeptExactly(counts: seq<Byte>)
    requires |counts| == PERSON_AREAS_MAX
    ensures (forall b :: Claims(counts, b) ==> AllPlansKept(b)) <==> Fitting(counts, PERSON_AREAS_MAX - 1)
  {
    if Fitting(counts, PERSON_AREAS_MAX - 1) {
      forall b, j, i | Claims(counts, b) && 0 <= j < PERSON_AREAS_MAX && 0 <= i < PLAN_MAX
        ensures KeepsPlan(b, j, i)
      {
        PlansAreKept(b, j, i);
      }
    } else {
      var k :| 0 <= k < PERSON_AREAS_MAX - 1 && counts[k] > PLAN_MAX;
      var b := PlanIsHit(counts, k);
    }
  }

  /** The limits of the first plan of an area are hit by the plans of the one before. */
  lemma {:induction false} PlanIsHit(counts: seq<Byte>, k: nat) returns (b: seq<Byte>)
    requires |counts| == PERSON_AREAS_MAX && k < PERSON_AREAS_MAX - 1 && counts[k] > PLAN_MAX
    ensures Claims(counts, b) && !AllPlansKept(b)
  {
    var j := FindFirst(counts, PLAN_MAX, k);
    var q := ENTRY_SIZE * (j + 1) + 2;
    b := Message(counts)[q + 3 := 1];
    SpillShows(counts, j);
    assert !KeepsPlan(b, j + 1, 0);
  }

  /** The plan at `q`: its shorts mean the same, if it counts, and the rest of it stays. */
  ghost predicate PlanIsKept(b: seq<Byte>, r: seq<Byte>, q: nat, counts: bool) {
    && |r| == |b| && q + PLAN_SIZE <= |b|
    && if counts then
         && NetValue(Short, r, q + 5) == HostValue(Short, b, q + 5)
         && NetValue(Short, r, q + 7) == HostValue(Short, b, q + 7)
         && Same(b, r, q, 5)
       else Same(b, r, q, PLAN_SIZE)
  }

  ghost predicate PlanMoved(b: seq<Byte>, r: seq<Byte>, q: nat, counts: bool) {
    && |r| == |b| && q + PLAN_SIZE <= |b|
    && forall d {:trigger PlanMirror(d)} :: 0 <= d < PLAN_SIZE ==> r[q + d] == b[q + if counts then PlanMirror(d) else d]
  }

  lemma {:induction false} PlanBytes(f: Act, n: nat, b: seq<Byte>, r: seq<Byte>, j: nat, i: nat)
    requires Swaps(f) && n == PERSON_AREAS_MAX && REACH <= |b| && Fitting(Counts(n, b), n - 1) && j < n && i < PLAN_MAX
    requires r == Areas(f, n, b)
    ensures PlanMoved(b, r, ENTRY_SIZE * j + 2 + PLAN_SIZE * i, i < PlanTotal(b, j))
  {
    AreasAt(f, n, b, j, i, 0);
    forall d {:trigger PlanMirror(d)} | 0 <= d < PLAN_SIZE
      ensures var q := ENTRY_SIZE * j + 2 + PLAN_SIZE * i;
        r[q + d] == b[q + if i < PlanTotal(b, j) then PlanMirror(d) else d]
    {
      AreasAt(f, n, b, j, i, d);
    }
  }

  lemma {:induction false} PlanMeans(b: seq<Byte>, r: seq<Byte>, q: nat, counts: bool)
    requires PlanMoved(b, r, q, counts)
    ensures PlanIsKept(b, r, q, counts)
  {
    forall y | q <= y < q + PLAN_SIZE ensures r[y] == b[q + if counts then PlanMirror(y - q) else y - q] {
      var d := y - q;
      var e := PlanMirror(d);
      assert r[q + d] == b[q + if counts then e else d];
    }
  }

  /** Where every entry has room, all bytes that are not of these shorts stay; in the message
      itself also if only the last entry has none. */
  lemma {:induction false} TimesStay(b: seq<Byte>, x: nat)
    requires REACH <= |b| && x < |b| && !Claimed(Counts(PERSON_AREAS_MAX, b), x)
    requires var counts := Counts(PERSON_AREAS_MAX, b);
      Fitting(counts, PERSON_AREAS_MAX) || (x < TIMES_SIZE && Fitting(counts, PERSON_AREAS_MAX - 1))
    ensures |Times(b)| == |b| && Times(b)[x] == b[x]
  {
    var counts := Counts(PERSON_AREAS_MAX, b);
    FittingSuffices(counts, if Fitting(counts, PERSON_AREAS_MAX) then PERSON_AREAS_MAX else PERSON_AREAS_MAX - 1, b);
  }

  // ---------------------------------------------------------------- in place

  /** One member reversed. */
  ghost predicate Flipped(u: Unit, b: seq<Byte>, r: seq<Byte>, at: nat) {
    Reversed(u, b, r, at) && SameOutside(b, r, at, Width(u))
  }

  /** One short or int, through a pointer. */
  method FlipUnit(a: array<Byte>, at: nat, u: Unit)
    requires at + Width(u) <= a.Length
    modifies a
    ensures Flipped(u, old(a[..]), a[..], at)
  {
    match u
    case Plain =>
    case Short =>
      a[at], a[at + 1] := a[at + 1], a[at];
    case Int =>
      a[at], a[at + 1], a[at + 2], a[at + 3] := a[at + 3], a[at + 2], a[at + 1], a[at];
  }

  /** The first `p` bytes of a structure are done. */
  ghost predicate Done(us: seq<Unit>, b: seq<Byte>, r: seq<Byte>, at: nat, p: nat) {
    && |b| == |r| && p <= Total(us) && at + Total(us) <= |b| && SameOutside(b, r, at, p)
    && forall x :: 0 <= x < p ==> r[at + x] == b[at + Mirror(us, x)]
  }

  lemma {:induction false} DoneGrows(us: seq<Unit>, b: seq<Byte>, m: seq<Byte>, r: seq<Byte>, at: nat, k: nat, p: nat)
    requires k < |us| && p == Offset(us, k) && Done(us, b, m, at, p) && Flipped(us[k], m, r, at + p)
    ensures Done(us, b, r, at, p + Width(us[k]))
  {
    var w := Width(us[k]);
    MirrorAt(us, k);
    OutsideGrows(b, m, r, at, p, w);
    forall x | 0 <= x < p + w ensures r[at + x] == b[at + Mirror(us, x)] {
      if x < p {
        assert r[at + x] == m[at + x];
      } else {
        FlippedByte(us, b, m, r, at, k, p, x - p);
      }
    }
  }

  lemma {:induction false} FlippedByte(us: seq<Unit>, b: seq<Byte>, m: seq<Byte>, r: seq<Byte>, at: nat, k: nat, p: nat, d: nat)
    requires k < |us| && p == Offset(us, k) && d < Width(us[k]) && at + Total(us) <= |b|
    requires SameOutside(b, m, at, p) && Flipped(us[k], m, r, at + p)
    ensures p + Width(us[k]) <= Total(us) && r[at + (p + d)] == b[at + Mirror(us, p + d)]
  {
    MirrorAt(us, k);
    assert r[at + p + d] == m[at + p + Within(us[k], d)];
  }

  lemma {:induction false} OutsideGrows(b: seq<Byte>, m: seq<Byte>, r: seq<Byte>, at: nat, p: nat, w: nat)
    requires SameOutside(b, m, at, p) && SameOutside(m, r, at + p, w)
    ensures SameOutside(b, r, at, p + w)
    ensures forall y :: at <= y < at + p && y < |b| ==> r[y] == m[y]
  {
  }

  /** `net_decode_obj` for a structure whose members are fixed. */
  method ConvertUnits(a: array<Byte>, at: nat, us: seq<Unit>)
    requires at + Total(us) <= a.Length
    modifies a
    ensures Mirrored(us, old(a[..]), a[..], at) && SameOutside(old(a[..]), a[..], at, Total(us))
  {
    ghost var was := a[..];
    var k: nat, p: nat := 0, 0;
    while k < |us|
      invariant k <= |us| && p == Offset(us, k) && Done(us, was, a[..], at, p)
    {
      ghost var mid := a[..];
      MirrorAt(us, k);
      FlipUnit(a, at + p, us[k]);
      ghost var now := a[..];
      assert Flipped(us[k], mid, now, at + p);
      DoneGrows(us, was, mid, now, at, k, p);
      p := p + Width(us[k]);
      k := k + 1;
    }
    OffsetOfAll(us);
  }

  lemma {:induction false} OffsetOfAll(us: seq<Unit>)
    ensures Offset(us, |us|) == Total(us)
  {
    if us != [] {
      OffsetOfAll(us[1..]);
    }
  }

  /** One short of a message that starts at `at`. */
  method FlipShort(a: array<Byte>, at: nat, p: nat)
    requires at + p + 2 <= a.Length
    modifies a
    ensures a[..at] == old(a[..at]) && a[at..] == FlipAt(old(a[at..]), p)
  {
    a[at + p], a[at + p + 1] := a[at + p + 1], a[at + p];
  }

  /** One more plan, and the count is still there. */
  lemma {:induction false} PlanStep(f: Act, i: nat, q: nat, was: seq<Byte>, t: seq<Byte>, u: seq<Byte>, v: seq<Byte>)
    requires Swaps(f) && q + 1 < |was| && t == PlansOf(f, i, q, was)
    requires u == f(t, q + PLAN_SIZE * i + 7) && v == f(u, q + PLAN_SIZE * i + 9)
    ensures v == PlansOf(f, i + 1, q, was) && |v| == |was| && v[q + 1] == was[q + 1]
  {
    PlansStay(f, i + 1, q, was, q + 1);
  }

  /** The loop over the plans of the area whose entry is at `q`. */
  method ConvertEntry(a: array<Byte>, at: nat, q: nat)
    requires at + q + 2 + PLAN_SIZE * 255 <= a.Length
    modifies a
    ensures a[..at] == old(a[..at]) && a[at..] == PlansOf(FlipAt, old(a[at + q + 1]), q, old(a[at..]))
  {
    ghost var was := a[at..];
    var i: nat := 0;
    FlipAtSwaps();
    while i < a[at + q + 1]
      invariant a[at + q + 1] == was[q + 1] && i <= was[q + 1]
      invariant a[..at] == old(a[..at]) && a[at..] == PlansOf(FlipAt, i, q, was)
      decreases was[q + 1] - i
    {
      ConvertPlan(a, at, q, i, was);
      i := i + 1;
    }
  }

  method ConvertPlan(a: array<Byte>, at: nat, q: nat, i: nat, ghost was: seq<Byte>)
    requires i < 255 && at + q + 2 + PLAN_SIZE * 255 <= a.Length && Swaps(FlipAt)
    requires |was| == a.Length - at && a[at..] == PlansOf(FlipAt, i, q, was)
    modifies a
    ensures a[..at] == old(a[..at]) && a[at..] == PlansOf(FlipAt, i + 1, q, was) && a[at + q + 1] == was[q + 1]
  {
    ghost var t := a[at..];
    FlipShort(a, at, q + PLAN_SIZE * i + 7);
    ghost var u := a[at..];
    FlipShort(a, at, q + PLAN_SIZE * i + 9);
    ghost var v := a[at..];
    PlanStep(FlipAt, i, q, was, t, u, v);
    assert a[at + q + 1] == v[q + 1];
  }

  /** The loop over the areas. */
  method ConvertTimes(a: array<Byte>, at: nat, areas: nat)
    requires at + REACH <= a.Length && areas <= PERSON_AREAS_MAX
    modifies a
    ensures a[..at] == old(a[..at]) && a[at..] == Areas(FlipAt, areas, old(a[at..]))
  {
    ghost var head, was := a[..at], a[at..];
    var j: nat := 0;
    while j < areas
      invariant j <= areas && a[..at] == head && a[at..] == Areas(FlipAt, j, was)
    {
      ConvertArea(a, at, j, was);
      j := j + 1;
    }
  }

  method ConvertArea(a: array<Byte>, at: nat, j: nat, ghost was: seq<Byte>)
    requires at + REACH <= a.Length && j < PERSON_AREAS_MAX && a[at..] == Areas(FlipAt, j, was)
    modifies a
    ensures a[..at] == old(a[..at]) && a[at..] == Areas(FlipAt, j + 1, was)
  {
    ghost var t := a[at..];
    assert PlanTotal(t, j) == a[at + ENTRY_SIZE * j + 1];
    ConvertEntry(a, at, ENTRY_SIZE * j);
    AreasNext(FlipAt, j, was, t);
  }

  /** What holds of a buffer holds of its part from `at` on. */
  lemma {:induction false} MirroredPart(us: seq<Unit>, b: seq<Byte>, r: seq<Byte>, at: nat)
    requires Mirrored(us, b, r, at) && SameOutside(b, r, at, Total(us))
    ensures Converted(Fixed(us), b[at..], r[at..]) && r[..at] == b[..at]
  {
    var c, s := b[at..], r[at..];
    forall x | 0 <= x < Total(us) ensures s[0 + x] == c[0 + Mirror(us, x)] {
      assert r[at + x] == b[at + Mirror(us, x)];
    }
  }

  /** `net_decode_obj`; both directions do the same. */
  method NetDecode(a: array<Byte>, at: nat, m: Layout)
    requires at + Room(m) <= a.Length
    modifies a
    ensures Converted(m, old(a[at..]), a[at..]) && a[..at] == old(a[..at])
  {
    if m.Plans? {
      ConvertTimes(a, at, PERSON_AREAS_MAX);
    } else {
      ghost var was := a[..];
      ConvertUnits(a, at, m.units);
      ghost var now := a[..];
      MirroredPart(m.units, was, now, at);
      assert was[at..] == old(a[at..]) && now[at..] == a[at..];
    }
  }

  // ---------------------------------------------------------------- packets

  function HeadUnits(): seq<Unit> {
    [Plain, Plain, Short, Short, Int]
  }

  /** A short of the head, in the host's order. */
  method StoreShort(buf: array<Byte>, at: nat, v: nat)
    requires at + 2 <= buf.Length && v < 0x1_0000
    modifies buf
    ensures HostValue(Short, buf[..], at) == v && SameOutside(old(buf[..]), buf[..], at, 2)
  {
    buf[at], buf[at + 1] := v % 0x100, v / 0x100;
  }

  method StoreInt(buf: array<Byte>, at: nat, v: nat)
    requires at + 4 <= buf.Length && v < 0x1_0000_0000
    modifies buf
    ensures HostValue(Int, buf[..], at) == v && SameOutside(old(buf[..]), buf[..], at, 4)
  {
    var low, high := v % 0x1_0000, v / 0x1_0000;
    buf[at], buf[at + 1] := low % 0x100, low / 0x100;
    buf[at + 2], buf[at + 3] := high % 0x100, high / 0x100;
  }

  /** `memcpy` */
  method Copy(buf: array<Byte>, at: nat, obj: seq<Byte>)
    requires at + |obj| <= buf.Length
    modifies buf
    ensures buf[..][at..at + |obj|] == obj && SameOutside(old(buf[..]), buf[..], at, |obj|)
  {
    forall i | 0 <= i < |obj| {
      buf[at + i] := obj[i];
    }
  }

  /** What lies from `at` on is not touched by what happens before. */
  lemma {:induction false} SameAfter(b: seq<Byte>, r: seq<Byte>, at: nat, size: nat, lo: nat)
    requires SameOutside(b, r, at, size) && at + size <= lo <= |b|
    ensures r[lo..] == b[lo..]
  {
  }

  /** `prepare_pkt`: the object behind the head, converted, and its type and length in the
      head, still in the host's order. */
  method PreparePkt(buf: array<Byte>, replyType: nat, m: Layout, obj: seq<Byte>) returns (total: nat)
    requires |obj| == SizeOf(m) && HEAD_SIZE + Room(m) <= buf.Length
    requires replyType < 0x1_0000 && |obj| < 0x1_0000_0000
    modifies buf
    ensures total == HEAD_SIZE + |obj|
    ensures Converted(m, obj + old(buf[HEAD_SIZE + |obj|..]), buf[HEAD_SIZE..])
    ensures HostValue(Short, buf[..], 4) == replyType && HostValue(Int, buf[..], 6) == |obj|
    ensures buf[..4] == old(buf[..4])
  {
    total := HEAD_SIZE + |obj|;
    ghost var b0 := buf[..];
    StoreShort(buf, 4, replyType);
    ghost var b1 := buf[..];
    Copy(buf, HEAD_SIZE, obj);
    ghost var b2 := buf[..];
    NetDecode(buf, HEAD_SIZE, m);
    ghost var b3 := buf[..];
    StoreInt(buf, 6, |obj|);
    ghost var b4 := buf[..];
    PacketParts(b0, b1, b2, b3, b4, obj);
    assert b4[HEAD_SIZE..] == buf[HEAD_SIZE..];
  }

  lemma {:induction false} PacketParts(b0: seq<Byte>, b1: seq<Byte>, b2: seq<Byte>, b3: seq<Byte>, b4: seq<Byte>, obj: seq<Byte>)
    requires HEAD_SIZE + |obj| <= |b0| && SameOutside(b0, b1, 4, 2)
    requires SameOutside(b1, b2, HEAD_SIZE, |obj|) && b2[HEAD_SIZE..HEAD_SIZE + |obj|] == obj
    requires |b3| == |b2| && b3[..HEAD_SIZE] == b2[..HEAD_SIZE] && SameOutside(b3, b4, 6, 4)
    ensures b2[HEAD_SIZE..] == obj + b0[HEAD_SIZE + |obj|..] && b4[HEAD_SIZE..] == b3[HEAD_SIZE..]
    ensures b4[..4] == b0[..4] && HostValue(Short, b4, 4) == HostValue(Short, b1, 4)
  {
    assert forall x :: 0 <= x < HEAD_SIZE ==> b3[x] == b3[..HEAD_SIZE][x] && b2[x] == b2[..HEAD_SIZE][x];
    assert b4[4] == b3[4] == b2[4] == b1[4] && b4[5] == b3[5] == b2[5] == b1[5];
    var n := HEAD_SIZE + |obj|;
    assert b2[HEAD_SIZE..] == b2[HEAD_SIZE..n] + b2[n..];
    assert b2[n..] == b0[n..];
  }

  /** The reply to a GET: the packet with its head converted as well. */
  method Reply(buf: array<Byte>, replyType: nat, m: Layout, obj: seq<Byte>) returns (total: nat)
    requires |obj| == SizeOf(m) && HEAD_SIZE + Room(m) <= buf.Length
    requires replyType < 0x1_0000 && |obj| < 0x1_0000_0000
    modifies buf
    ensures total == HEAD_SIZE + |obj|
    ensures Converted(m, obj + old(buf[HEAD_SIZE + |obj|..]), buf[HEAD_SIZE..])
    ensures buf[0] == old(buf[0]) && buf[1] == old(buf[1])
    ensures NetValue(Short, buf[..], 2) == old(HostValue(Short, buf[..], 2))
    ensures NetValue(Short, buf[..], 4) == replyType && NetValue(Int, buf[..], 6) == |obj|
  {
    ghost var was := buf[..];
    total := PreparePkt(buf, replyType, m, obj);
    ghost var b := buf[..];
    HeadSize();
    ConvertUnits(buf, 0, HeadUnits());
    ghost var r := buf[..];
    ReplyParts(was, b, r);
    assert r[HEAD_SIZE..] == buf[HEAD_SIZE..] && b[HEAD_SIZE..] == r[HEAD_SIZE..];
  }

  lemma {:induction false} ReplyParts(was: seq<Byte>, b: seq<Byte>, r: seq<Byte>)
    requires |b| == |was| >= HEAD_SIZE && b[..4] == was[..4]
    requires Mirrored(HeadUnits(), b, r, 0) && SameOutside(b, r, 0, HEAD_SIZE)
    ensures r[0] == was[0] && r[1] == was[1] && NetValue(Short, r, 2) == HostValue(Short, was, 2)
    ensures NetValue(Short, r, 4) == HostValue(Short, b, 4) && NetValue(Int, r, 6) == HostValue(Int, b, 6)
    ensures r[HEAD_SIZE..] == b[HEAD_SIZE..]
  {
    assert forall x :: 0 <= x < 4 ==> b[..4][x] == b[x] && was[..4][x] == was[x];
    HeadMeans(b, r);
    SameAfter(b, r, 0, HEAD_SIZE, HEAD_SIZE);
  }

  lemma {:induction false} HeadSize()
    ensures Total(HeadUnits()) == HEAD_SIZE && LayoutOf(Command) == Fixed(HeadUnits())
    ensures Offset(HeadUnits(), 2) == 2 && Offset(HeadUnits(), 3) == 4 && Offset(HeadUnits(), 4) == 6
  {
    var us := HeadUnits();
    assert us[1..] == [Plain, Short, Short, Int] && us[1..][1..] == [Short, Short, Int];
    assert us[1..][1..][1..] == [Short, Int] && us[1..][1..][1..][1..] == [Int];
    OffsetOfAll(us);
  }

  lemma {:induction false} HeadMeans(b: seq<Byte>, r: seq<Byte>)
    requires Mirrored(HeadUnits(), b, r, 0) && |b| >= HEAD_SIZE
    ensures r[0] == b[0] && r[1] == b[1]
    ensures NetValue(Short, r, 2) == HostValue(Short, b, 2) && NetValue(Short, r, 4) == HostValue(Short, b, 4)
    ensures NetValue(Int, r, 6) == HostValue(Int, b, 6)
  {
    HeadSize();
    HeadMembers(HeadUnits(), b, r);
  }

  lemma {:induction false} HeadMembers(us: seq<Unit>, b: seq<Byte>, r: seq<Byte>)
    requires Mirrored(us, b, r, 0) && |b| >= HEAD_SIZE && us == [Plain, Plain, Short, Short, Int]
    requires Offset(us, 1) == 1 && Offset(us, 2) == 2 && Offset(us, 3) == 4 && Offset(us, 4) == 6
    ensures r[0] == b[0] && r[1] == b[1]
    ensures NetValue(Short, r, 2) == HostValue(Short, b, 2) && NetValue(Short, r, 4) == HostValue(Short, b, 4)
    ensures NetValue(Int, r, 6) == HostValue(Int, b, 6)
  {
    MemberMeans(us, b, r, 0, Plain, 0);
    MemberMeans(us, b, r, 1, Plain, 1);
    MemberMeans(us, b, r, 2, Short, 2);
    MemberMeans(us, b, r, 3, Short, 4);
    MemberMeans(us, b, r, 4, Int, 6);
  }

  lemma {:induction false} MemberMeans(us: seq<Unit>, b: seq<Byte>, r: seq<Byte>, k: nat, u: Unit, p: nat)
    requires Mirrored(us, b, r, 0) && k < |us| && us[k] == u && Offset(us, k) == p && p + Width(u) <= |b|
    ensures NetValue(u, r, p) == HostValue(u, b, p)
  {
    MeaningIsKept(us, b, r, 0, k);
  }

  lemma {:induction false} CountsOfMessage(n: nat, obj: seq<Byte>, tail: seq<Byte>)
    requires ENTRY_SIZE * n <= |obj|
    ensures Counts(n, obj + tail) == Counts(n, obj)
  {
  }

  /** Decoding what was packed recovers the object, and what was behind it. */
  method PackThenDecode(buf: array<Byte>, replyType: nat, m: Layout, obj: seq<Byte>)
    requires |obj| == SizeOf(m) && HEAD_SIZE + Room(m) <= buf.Length && Reversible(m, obj)
    requires replyType < 0x1_0000 && |obj| < 0x1_0000_0000
    modifies buf
    ensures buf[HEAD_SIZE..] == obj + old(buf[HEAD_SIZE + |obj|..])
  {
    ghost var b := obj + buf[HEAD_SIZE + |obj|..];
    if m.Plans? {
      CountsOfMessage(PERSON_AREAS_MAX, obj, buf[HEAD_SIZE + |obj|..]);
    }
    var total := PreparePkt(buf, replyType, m, obj);
    ghost var r := buf[HEAD_SIZE..];
    NetDecode(buf, HEAD_SIZE, m);
    ConversionIsInvolution(m, b, r, buf[HEAD_SIZE..]);
  }
}
