/**
 * The station of the earlier engine (entities.py). Items and orders have
 * the same shape as in the packaged engine and reuse `Entities.Item` and
 * `Entities.Order`; the station differs in carrying an integer type code and
 * a `source_item` taken from the node table.
 */
module LegacyEntities {
  import opened Wrappers
  import opened Entities
  import LegacyConfig

  datatype Station = Station(
    nodeId: int,
    name: string,
    stationType: int,
    sourceItem: Option<int>,
    heldItem: Option<Item>,
    timer: int,
    isBusy: bool)

  /** Nothing held, not busy, timer 0. */
  predicate Empty(s: Station) {
    s.heldItem.None? && !s.isBusy && s.timer == 0
  }

  /** The station runs a timer on an item it holds. */
  predicate Working(s: Station) {
    s.isBusy && s.heldItem.Some?
  }

  /** `Station(node_id, config_data)`: identity from the node entry, an empty processing state. */
  function NewStation(nodeId: int, c: LegacyConfig.NodeEntry): (s: Station)
    ensures Empty(s)
    ensures s.nodeId == nodeId && s.name == c.name && s.stationType == c.stationType
    ensures s.sourceItem == c.item
  {
    Station(nodeId, c.name, c.stationType, c.item, None, 0, false)
  }

  /** `Station.tick`: one second of processing; the flag says processing ended on this tick. */
  function Tick(s: Station): (r: (bool, Station))
    ensures r.1 == s.(isBusy := r.1.isBusy, timer := r.1.timer)
    ensures !Working(s) ==> r == (false, s)
    ensures Working(s) && s.timer > 1 ==> r == (false, s.(timer := s.timer - 1))
    ensures Working(s) && s.timer <= 1 ==> r.0 && !r.1.isBusy && r.1.timer == 0
  {
    if s.isBusy && s.heldItem.Some? then
      var lowered := s.timer - 1;
      if lowered <= 0 then (true, s.(isBusy := false, timer := 0))
      else (false, s.(timer := lowered))
    else (false, s)
  }

  /** `start_processing(duration)`: busy with the given timer; the held item is left alone. */
  function StartProcessing(s: Station, duration: int): (s': Station)
    ensures s'.isBusy && s'.timer == duration
    ensures s' == s.(isBusy := s'.isBusy, timer := s'.timer)
  {
    s.(isBusy := true, timer := duration)
  }

  /** The station after `n` ticks, and how many of them reported the end of processing. */
  function TickTimes(s: Station, n: nat): (r: (nat, Station))
    decreases n
  {
    if n == 0 then (0, s)
    else
      var (done, s1) := Tick(s);
      var (count, s2) := TickTimes(s1, n - 1);
      (if done then count + 1 else count, s2)
  }

  /** A new station never starts processing by itself. */
  lemma {:induction false} NewStationStaysEmpty(nodeId: int, c: LegacyConfig.NodeEntry, n: nat)
    ensures TickTimes(NewStation(nodeId, c), n) == (0, NewStation(nodeId, c))
    decreases n
  {
    if n > 0 {
      NewStationStaysEmpty(nodeId, c, n - 1);
    }
  }

  /**
   * Putting an item on a station and starting a `d`-second process: after
   * exactly `d` ticks the station is done, still holds the item, and the end
   * was reported once; after fewer it is still busy with `d - n` left.
   */
  lemma {:induction false} ProcessRunsItsDuration(s: Station, d: int, n: nat)
    requires s.heldItem.Some? && d >= 1
    ensures n < d ==> TickTimes(StartProcessing(s, d), n) == (0, StartProcessing(s, d - n))
    ensures n >= d ==> TickTimes(StartProcessing(s, d), n) == (1, s.(isBusy := false, timer := 0))
    decreases n
  {
    if n > 0 {
      var (done, s1) := Tick(StartProcessing(s, d));
      if d == 1 {
        assert s1 == s.(isBusy := false, timer := 0);
        IdleStaysPut(s1, n - 1);
      } else {
        assert s1 == StartProcessing(s, d - 1);
        ProcessRunsItsDuration(s, d - 1, n - 1);
      }
    }
  }

  /** A station that is not working is left exactly as it is by any number of ticks. */
  lemma {:induction false} IdleStaysPut(s: Station, n: nat)
    requires !Working(s)
    ensures TickTimes(s, n) == (0, s)
    decreases n
  {
    if n > 0 {
      IdleStaysPut(s, n - 1);
    }
  }

  /** Ticking never changes a station's held item or identity. */
  lemma {:induction false} TicksKeepItem(s: Station, n: nat)
    ensures TickTimes(s, n).1 == s.(isBusy := TickTimes(s, n).1.isBusy, timer := TickTimes(s, n).1.timer)
    decreases n
  {
    if n > 0 {
      TicksKeepItem(Tick(s).1, n - 1);
    }
  }
}
