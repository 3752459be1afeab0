/**
 * Items, orders and the mutable state of one station
 * (src/kitchen_rl/core/entities.py).
 */
module Entities {
  import opened Wrappers

  /** An ingredient or dish instance: its type and a unique id. */
  datatype Item = Item(typeId: int, uid: int)

  datatype Order = Order(orderId: int, itemType: int, timeRemaining: int, maxTime: int)

  /** `Order.is_expired`. */
  predicate IsExpired(o: Order) {
    o.timeRemaining <= 0
  }

  /**
   * A station: its fixed identity (node id, display name, type label, the
   * item it dispenses when it is a source) and its processing state.
   */
  datatype StationState = StationState(
    nodeId: int,
    name: string,
    stationType: string,
    sourceItemId: Option<int>,
    heldItem: Option<Item>,
    timer: int,
    isBusy: bool)

  /** True when the station is running a timer on an item it holds. */
  predicate Processing(s: StationState) {
    s.isBusy && s.heldItem.Some?
  }

  /** The station's identity and held item: what a tick may never change. */
  predicate SameContents(s: StationState, t: StationState) {
    && t.nodeId == s.nodeId
    && t.name == s.name
    && t.stationType == s.stationType
    && t.sourceItemId == s.sourceItemId
    && t.heldItem == s.heldItem
  }

  datatype TickResult = TickResult(finished: bool, station: StationState)

  /** `StationState.tick`: one second of processing; `finished` reports that processing just ended. */
  function Tick(s: StationState): (r: TickResult)
    ensures SameContents(s, r.station)
    ensures !Processing(s) ==> r == TickResult(false, s)
    ensures Processing(s) && s.timer - 1 > 0 ==>
      !r.finished && r.station.isBusy && r.station.timer == s.timer - 1
    ensures Processing(s) && s.timer - 1 <= 0 ==>
      r.finished && !r.station.isBusy && r.station.timer == 0
    ensures r.finished <==> Processing(s) && s.timer <= 1
  {
    if s.isBusy && s.heldItem.Some? then
      var lowered := s.timer - 1;
      if lowered <= 0 then TickResult(true, s.(isBusy := false, timer := 0))
      else TickResult(false, s.(timer := lowered))
    else
      TickResult(false, s)
  }

  /** The finished flags of `n` consecutive ticks, and the station afterwards. */
  function TickMany(s: StationState, n: nat): (seq<bool>, StationState)
    decreases n
  {
    if n == 0 then ([], s)
    else
      var first := Tick(s);
      var rest := TickMany(first.station, n - 1);
      ([first.finished] + rest.0, rest.1)
  }

  /** Ticking never changes identity or contents, however many times. */
  lemma {:induction false} TickManyKeepsContents(s: StationState, n: nat)
    ensures |TickMany(s, n).0| == n
    ensures SameContents(s, TickMany(s, n).1)
    decreases n
  {
    if n > 0 {
      TickManyKeepsContents(Tick(s).station, n - 1);
    }
  }

  /**
   * A station processing with timer t >= 1 reports `finished` on exactly its
   * t-th tick (index t - 1) and on no other tick, before or after.
   */
  lemma {:induction false} FinishesExactlyOnce(s: StationState, n: nat, k: nat)
    requires Processing(s) && s.timer >= 1
    requires k < n
    ensures |TickMany(s, n).0| == n
    ensures TickMany(s, n).0[k] <==> k == s.timer - 1
    decreases n
  {
    TickManyKeepsContents(s, n);
    var first := Tick(s);
    if k > 0 {
      if s.timer == 1 {
        IdleNeverFinishes(first.station, n - 1, k - 1);
      } else {
        FinishesExactlyOnce(first.station, n - 1, k - 1);
      }
    }
  }

  /** An idle station stays idle and never reports `finished`. */
  lemma {:induction false} IdleNeverFinishes(s: StationState, n: nat, k: nat)
    requires !Processing(s)
    requires k < n
    ensures |TickMany(s, n).0| == n
    ensures !TickMany(s, n).0[k]
    ensures TickMany(s, n).1 == s
    decreases n
  {
    TickManyKeepsContents(s, n);
    if k > 0 {
      IdleNeverFinishes(s, n - 1, k - 1);
    } else if n > 1 {
      IdleNeverFinishes(s, n - 1, 0);
    }
  }
}
