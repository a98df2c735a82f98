/** `MyCycle`: a list of slots iterated round and round, where removing an
    element overwrites its slot with a tombstone (`None`) instead of deleting
    it, so positions stay stable while the iteration is in progress. */
module TurnCycle {
  import opened Wrappers

  /** Where the iteration stands: the next position of the current pass, and
      whether the current pass has yielded anything yet. */
  datatype Cursor = Cursor(pos: nat, itemsLeft: bool)

  /** The state of a freshly started iteration. */
  const Start: Cursor := Cursor(0, false)

  /** A cycle over the given elements, every slot live. */
  function NewCycle<T>(items: seq<T>): (slots: seq<Option<T>>)
    ensures |slots| == |items|
    ensures forall i :: 0 <= i < |items| ==> slots[i] == Some(items[i])
  {
    seq(|items|, i requires 0 <= i < |items| => Some(items[i]))
  }

  /** First live slot at or after `from`. */
  function FirstLive<T>(slots: seq<Option<T>>, from: nat): (r: Option<nat>)
    ensures r.None? ==> forall j :: from <= j < |slots| ==> slots[j].None?
    ensures r.Some? ==> from <= r.value < |slots| && slots[r.value].Some?
    ensures r.Some? ==> forall j :: from <= j < r.value ==> slots[j].None?
    decreases |slots| - from
  {
    if from >= |slots| then None
    else if slots[from].Some? then Some(from)
    else FirstLive(slots, from + 1)
  }

  /** One resumption of `__iter__`: the position of the slot yielded next and
      the cursor after it, or `None` when the iteration has ended. The rest of
      the current pass is searched first; at the end of a pass that yielded
      something a new pass starts from position 0; a pass that yields nothing
      ends the iteration. Tombstones written between resumptions are seen,
      since the pass reads the live list. */
  function Next<T>(slots: seq<Option<T>>, cur: Cursor): (r: Option<(nat, Cursor)>)
    ensures r.Some? ==> r.value.0 < |slots| && slots[r.value.0].Some?
    ensures r.Some? ==> r.value.1 == Cursor(r.value.0 + 1, true)
    ensures r.Some? && cur.pos <= r.value.0 ==>
      forall j :: cur.pos <= j < r.value.0 ==> slots[j].None?
    ensures r.Some? && r.value.0 < cur.pos ==>
      && cur.itemsLeft
      && (forall j :: cur.pos <= j < |slots| ==> slots[j].None?)
      && (forall j :: 0 <= j < r.value.0 ==> slots[j].None?)
    ensures r.None? <==>
      && (forall j :: cur.pos <= j < |slots| ==> slots[j].None?)
      && (!cur.itemsLeft || forall j :: 0 <= j < |slots| ==> slots[j].None?)
  {
    match FirstLive(slots, cur.pos)
    case Some(k) => Some((k, Cursor(k + 1, true)))
    case None =>
      if !cur.itemsLeft then None
      else
        match FirstLive(slots, 0)
        case Some(k) => Some((k, Cursor(k + 1, true)))
        case None => None
  }

  /** `len(cycle)`: the number of live slots. */
  function Count<T>(slots: seq<Option<T>>): (c: nat)
    ensures c <= |slots|
    ensures c == |slots| <==> forall k :: 0 <= k < |slots| ==> slots[k].Some?
  {
    if |slots| == 0 then 0
    else Count(slots[..|slots| - 1]) + (if slots[|slots| - 1].Some? then 1 else 0)
  }

  /** `cycle.elements()`: the live slots' contents in list order. */
  function Elements<T(==,!new)>(slots: seq<Option<T>>): (r: seq<T>)
    ensures |r| == Count(slots)
    ensures forall x :: x in r <==> Some(x) in slots
  {
    if |slots| == 0 then []
    else
      var init := Elements(slots[..|slots| - 1]);
      assert slots == slots[..|slots| - 1] + [slots[|slots| - 1]];
      match slots[|slots| - 1]
      case Some(x) => init + [x]
      case None => init
  }

  /** No live slot is left exactly when the count is zero. */
  lemma {:induction false} CountZero<T>(slots: seq<Option<T>>)
    ensures Count(slots) == 0 <==> forall j :: 0 <= j < |slots| ==> slots[j].None?
    decreases |slots|
  {
    if |slots| > 0 {
      CountZero(slots[..|slots| - 1]);
      assert forall j :: 0 <= j < |slots| - 1 ==> slots[..|slots| - 1][j] == slots[j];
    }
  }

  /** Once every slot is a tombstone the iteration ends, whatever the cursor. */
  lemma ExhaustedCycleStops<T>(slots: seq<Option<T>>, cur: Cursor)
    requires Count(slots) == 0
    ensures Next(slots, cur) == None
  {
    CountZero(slots);
  }

  /** While a live slot remains, an iteration that has started a pass and
      yielded in it never stops. */
  lemma LiveCycleContinues<T>(slots: seq<Option<T>>, cur: Cursor)
    requires Count(slots) > 0
    requires cur.itemsLeft || cur.pos == 0
    ensures Next(slots, cur).Some?
  {
    CountZero(slots);
  }

  /** Position of the first slot holding `e`, as `list.index(e)` finds it. */
  function IndexOfSlot<T(==)>(slots: seq<Option<T>>, e: T): (i: nat)
    requires Some(e) in slots
    ensures i < |slots| && slots[i] == Some(e)
    ensures forall j :: 0 <= j < i ==> slots[j] != Some(e)
  {
    if slots[0] == Some(e) then 0 else 1 + IndexOfSlot(slots[1..], e)
  }

  datatype CycleError = NotInCycle

  /** Tombstoning a live slot lowers the count by one. */
  lemma {:induction false} CountTombstone<T>(slots: seq<Option<T>>, i: nat)
    requires i < |slots| && slots[i].Some?
    ensures Count(slots[i := None]) == Count(slots) - 1
    decreases |slots|
  {
    var t := slots[i := None];
    if i < |slots| - 1 {
      CountTombstone(slots[..|slots| - 1], i);
      assert t[..|t| - 1] == slots[..|slots| - 1][i := None];
    } else {
      assert t[..|t| - 1] == slots[..|slots| - 1];
    }
  }

  /** `remove(e)`: the first slot holding `e` becomes a tombstone; the list
      keeps its length and every other slot. An absent `e` is an error
      (`list.index` raises). */
  function Remove<T(==)>(slots: seq<Option<T>>, e: T): (r: Result<seq<Option<T>>, CycleError>)
    ensures r.Success? <==> Some(e) in slots
    ensures r.Success? ==>
      && |r.value| == |slots|
      && Some(e) in slots
      && r.value[IndexOfSlot(slots, e)] == None
      && (forall j :: 0 <= j < |slots| && j != IndexOfSlot(slots, e) ==> r.value[j] == slots[j])
      && Count(r.value) == Count(slots) - 1
  {
    if Some(e) in slots then
      var i := IndexOfSlot(slots, e);
      CountTombstone(slots, i);
      Success(slots[i := None])
    else Failure(NotInCycle)
  }
}
