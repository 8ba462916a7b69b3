/** The bounded queue of car-in, car-out records of one camera (zen_rtsp/sig_service.c). */
module InOutRing {

  const LIST_IN_OUT_MAX := 50

  /** Place `k` after place `i`, around the ring. */
  function Around(i: nat, k: nat): nat
    requires i < LIST_IN_OUT_MAX && k <= LIST_IN_OUT_MAX
  {
    if i + k < LIST_IN_OUT_MAX then i + k else i + k - LIST_IN_OUT_MAX
  }

  class Ring<T(0)> {
    const list: array<T>
    var count: nat
    var sNext: nat
    var gNext: nat
    ghost var contents: seq<T>

    ghost predicate Valid()
      reads this, list
    {
      && list.Length == LIST_IN_OUT_MAX && sNext < LIST_IN_OUT_MAX && gNext < LIST_IN_OUT_MAX
      && count == |contents| <= LIST_IN_OUT_MAX && sNext == Around(gNext, count)
      && forall k :: 0 <= k < count ==> list[Around(gNext, k)] == contents[k]
    }

    constructor (blank: T)
      ensures Valid() && contents == [] && fresh(list)
    {
      list := new T[LIST_IN_OUT_MAX](_ => blank);
      count, sNext, gNext, contents := 0, 0, 0, [];
    }

    /** `add_car_in_out_item`: refused just when the ring is full, though the test looks only
        at the two places and at whether anything is queued. */
    method Add(item: T) returns (ok: bool)
      requires Valid()
      modifies this, list
      ensures Valid()
      ensures ok <==> |old(contents)| < 50
      ensures contents == if ok then old(contents) + [item] else old(contents)
    {
      if sNext == gNext && count > 0 {
        return false;
      }
      list[sNext] := item;
      count := count + 1;
      sNext := (sNext + 1) % LIST_IN_OUT_MAX;
      contents := contents + [item];
      ok := true;
    }

    /** `get_car_in_out_item` */
    method Get(item: T) returns (ok: bool, r: T)
      requires Valid()
      modifies this
      ensures Valid()
      ensures ok <==> old(contents) != []
      ensures if ok then old(contents) == [r] + contents else r == item && contents == old(contents)
    {
      if count == 0 {
        return false, item;
      }
      r := list[gNext];
      assert r == list[Around(gNext, 0)];
      assert forall k :: 0 <= k < count - 1 ==> Around(Around(gNext, 1), k) == Around(gNext, k + 1);
      count := count - 1;
      gNext := (gNext + 1) % LIST_IN_OUT_MAX;
      contents := contents[1..];
      ok := true;
    }
  }
}
