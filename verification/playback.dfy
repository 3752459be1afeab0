/**
 * The replay viewer's playback logic (visualizer/main.py): the timeline of
 * loaded events sorted by tick, the table of state snapshots, the lookup of
 * the snapshot to draw at the current tick, the step, rewind and play
 * controls, and the colour parser. Drawing and the event loop are not part
 * of this model.
 */
module Playback {
  import opened Wrappers
  import opened JsonValues

  // ---- Timeline ---------------------------------------------------------------

  /** One timeline entry: the event's tick, the event, and its snapshot when it is a STATE event that carries one. */
  datatype Entry = Entry(tick: int, event: Json, snapshot: Option<Json>)

  /**
   * How `_build_timeline` reads one loaded event: `event['tick']` and
   * `event['type']` must exist. Only integer ticks are modelled.
   */
  function EntryOf(j: Json): (r: Result<Entry>)
    ensures r.Success? <==> j.JObj? && "tick" in j.fields && "type" in j.fields && j.fields["tick"].JInt?
    ensures r.Success? ==> r.value.event == j && r.value.tick == j.fields["tick"].i
    ensures r.Success? ==> (r.value.snapshot.Some? <==> j.fields["type"] == JStr("STATE") && "snapshot" in j.fields)
  {
    if !j.JObj? then Failure("TypeError: event is not a dictionary")
    else if "tick" !in j.fields then Failure("KeyError: 'tick'")
    else if "type" !in j.fields then Failure("KeyError: 'type'")
    else if !j.fields["tick"].JInt? then Failure("TypeError: tick is not an integer")
    else
      var snap := if j.fields["type"] == JStr("STATE") && "snapshot" in j.fields then Some(j.fields["snapshot"]) else None;
      Success(Entry(j.fields["tick"].i, j, snap))
  }

  function EntriesOf(events: seq<Json>): (r: Result<seq<Entry>>)
    ensures r.Success? <==> forall i :: 0 <= i < |events| ==> EntryOf(events[i]).Success?
    ensures r.Success? ==> |r.value| == |events| && forall i :: 0 <= i < |events| ==> r.value[i] == EntryOf(events[i]).value
  {
    if |events| == 0 then Success([])
    else
      var first :- EntryOf(events[0]);
      var rest :- EntriesOf(events[1..]);
      assert forall i :: 1 <= i < |events| ==> events[1..][i - 1] == events[i];
      Success([first] + rest)
  }

  /** The snapshot table, filled in file order, so a later snapshot at the same tick replaces an earlier one. */
  function SnapshotsOf(es: seq<Entry>): (m: map<int, Json>)
    ensures forall t :: t in m <==> exists i :: 0 <= i < |es| && es[i].snapshot.Some? && es[i].tick == t
  {
    if |es| == 0 then map[]
    else
      var init := es[..|es| - 1];
      var last := es[|es| - 1];
      var m := SnapshotsOf(init);
      assert forall i :: 0 <= i < |es| - 1 ==> init[i] == es[i];
      if last.snapshot.Some? then m[last.tick := last.snapshot.value] else m
  }

  /** The snapshot kept for a tick is the one from the last STATE event at that tick. */
  lemma {:induction false} SnapshotsLastWins(es: seq<Entry>, i: int)
    requires 0 <= i < |es| && es[i].snapshot.Some?
    requires forall j :: i < j < |es| && es[j].snapshot.Some? ==> es[j].tick != es[i].tick
    ensures SnapshotsOf(es)[es[i].tick] == es[i].snapshot.value
    decreases |es|
  {
    var init := es[..|es| - 1];
    if i < |es| - 1 {
      assert init[i] == es[i];
      assert forall j :: i < j < |init| ==> init[j] == es[j];
      SnapshotsLastWins(init, i);
    }
  }

  predicate SortedByTick(s: seq<Entry>) {
    forall i, j :: 0 <= i < j < |s| ==> s[i].tick <= s[j].tick
  }

  /** Places x after every entry whose tick is at most x's. */
  function Insert(x: Entry, s: seq<Entry>): (r: seq<Entry>)
    ensures |r| == |s| + 1
    ensures multiset(r) == multiset(s) + multiset{x}
  {
    if |s| == 0 then [x]
    else if s[0].tick <= x.tick then
      assert s == [s[0]] + s[1..];
      [s[0]] + Insert(x, s[1..])
    else
      [x] + s
  }

  lemma {:induction false} InsertSorted(x: Entry, s: seq<Entry>)
    requires SortedByTick(s)
    ensures SortedByTick(Insert(x, s))
    decreases |s|
  {
    if |s| > 0 && s[0].tick <= x.tick {
      var tail := s[1..];
      var rest := Insert(x, tail);
      InsertSorted(x, tail);
      assert forall k :: 0 <= k < |tail| ==> s[0].tick <= tail[k].tick by {
        assert forall k :: 0 <= k < |tail| ==> tail[k] == s[k + 1];
      }
      InsertLowerBound(x, tail, s[0].tick);
      PrependSorted(s[0], rest);
      assert Insert(x, s) == [s[0]] + rest;
    }
  }

  /** Inserting into entries all at or after tick b, an entry also at or after b, gives entries at or after b. */
  lemma InsertLowerBound(x: Entry, s: seq<Entry>, b: int)
    requires b <= x.tick && forall k :: 0 <= k < |s| ==> b <= s[k].tick
    ensures forall k :: 0 <= k < |Insert(x, s)| ==> b <= Insert(x, s)[k].tick
  {
    var r := Insert(x, s);
    forall k | 0 <= k < |r| ensures b <= r[k].tick {
      assert r[k] in multiset(r);
      if r[k] != x {
        assert r[k] in multiset(s);
        var j :| 0 <= j < |s| && s[j] == r[k];
      }
    }
  }

  lemma PrependSorted(y: Entry, s: seq<Entry>)
    requires SortedByTick(s) && forall k :: 0 <= k < |s| ==> y.tick <= s[k].tick
    ensures SortedByTick([y] + s)
  {
    var r := [y] + s;
    forall i, j | 0 <= i < j < |r| ensures r[i].tick <= r[j].tick {
      assert r[j] == s[j - 1];
      if i > 0 {
        assert r[i] == s[i - 1];
      }
    }
  }

  /** `timeline.sort(key=tick)`: Python's sort is stable; here, an insertion sort in file order. */
  function SortByTick(s: seq<Entry>): (r: seq<Entry>)
    ensures |r| == |s| && SortedByTick(r)
    ensures multiset(r) == multiset(s)
  {
    if |s| == 0 then []
    else
      var init := s[..|s| - 1];
      assert s == init + [s[|s| - 1]];
      var sorted := SortByTick(init);
      InsertSorted(s[|s| - 1], sorted);
      Insert(s[|s| - 1], sorted)
  }

  /** The entries with tick t, in order. */
  function WithTick(s: seq<Entry>, t: int): seq<Entry> {
    if |s| == 0 then []
    else (if s[0].tick == t then [s[0]] else []) + WithTick(s[1..], t)
  }

  lemma {:induction false} WithTickAppend(a: seq<Entry>, b: seq<Entry>, t: int)
    ensures WithTick(a + b, t) == WithTick(a, t) + WithTick(b, t)
    decreases |a|
  {
    if |a| == 0 {
      assert a + b == b;
    } else {
      var head := if a[0].tick == t then [a[0]] else [];
      WithTickAppend(a[1..], b, t);
      assert a + b == [a[0]] + (a[1..] + b);
      WithTickCons(a[0], a[1..] + b, t);
      assert WithTick(a, t) == head + WithTick(a[1..], t);
      assert WithTick(a + b, t) == head + (WithTick(a[1..], t) + WithTick(b, t));
    }
  }

  lemma {:induction false} NoneWithTick(s: seq<Entry>, t: int)
    requires forall k :: 0 <= k < |s| ==> s[k].tick != t
    ensures WithTick(s, t) == []
    decreases |s|
  {
    if |s| > 0 {
      NoneWithTick(s[1..], t);
    }
  }

  /** Inserting x into a sorted timeline puts it after every entry with its tick. */
  lemma {:induction false} WithTickInsert(x: Entry, s: seq<Entry>, t: int)
    requires SortedByTick(s)
    ensures WithTick(Insert(x, s), t) == WithTick(s, t) + (if x.tick == t then [x] else [])
    decreases |s|
  {
    if |s| == 0 {
      WithTickCons(x, [], t);
    } else if s[0].tick <= x.tick {
      SortedTail(s);
      WithTickInsert(x, s[1..], t);
      WithTickInsertBehind(x, s, t);
    } else {
      WithTickInsertFront(x, s, t);
    }
  }

  /** x goes behind the first entry: the first entry's contribution stays in front. */
  lemma WithTickInsertBehind(x: Entry, s: seq<Entry>, t: int)
    requires |s| > 0 && s[0].tick <= x.tick
    requires WithTick(Insert(x, s[1..]), t) == WithTick(s[1..], t) + (if x.tick == t then [x] else [])
    ensures WithTick(Insert(x, s), t) == WithTick(s, t) + (if x.tick == t then [x] else [])
  {
    var own := if x.tick == t then [x] else [];
    InsertBehind(x, s);
    ConsContribution(s[0], s[1..], Insert(x, s[1..]), own, t);
    assert [s[0]] + s[1..] == s;
  }

  /** Putting the same entry in front of two timelines keeps their difference in tick t. */
  lemma ConsContribution(y: Entry, tail: seq<Entry>, rest: seq<Entry>, own: seq<Entry>, t: int)
    requires WithTick(rest, t) == WithTick(tail, t) + own
    ensures WithTick([y] + rest, t) == WithTick([y] + tail, t) + own
  {
    var head := if y.tick == t then [y] else [];
    WithTickCons(y, rest, t);
    WithTickCons(y, tail, t);
    assert head + (WithTick(tail, t) + own) == (head + WithTick(tail, t)) + own;
  }

  lemma InsertBehind(x: Entry, s: seq<Entry>)
    requires |s| > 0 && s[0].tick <= x.tick
    ensures Insert(x, s) == [s[0]] + Insert(x, s[1..])
  {
  }

  /** x goes in front of a sorted timeline whose first entry is later than x. */
  lemma WithTickInsertFront(x: Entry, s: seq<Entry>, t: int)
    requires SortedByTick(s) && |s| > 0 && x.tick < s[0].tick
    ensures WithTick(Insert(x, s), t) == WithTick(s, t) + (if x.tick == t then [x] else [])
  {
    assert Insert(x, s) == [x] + s;
    WithTickCons(x, s, t);
    if x.tick == t {
      assert forall k :: 0 <= k < |s| ==> s[0].tick <= s[k].tick;
      NoneWithTick(s, t);
    }
  }

  lemma WithTickCons(y: Entry, s: seq<Entry>, t: int)
    ensures WithTick([y] + s, t) == (if y.tick == t then [y] else []) + WithTick(s, t)
  {
    assert ([y] + s)[1..] == s;
  }

  lemma SortedTail(s: seq<Entry>)
    requires |s| > 0 && SortedByTick(s)
    ensures SortedByTick(s[1..])
  {
    var tail := s[1..];
    forall i, j | 0 <= i < j < |tail| ensures tail[i].tick <= tail[j].tick {
      assert tail[i] == s[i + 1] && tail[j] == s[j + 1];
    }
  }

  /**
   * The sort is stable: for every tick, the entries with that tick keep the
   * order they had in the file.
   */
  lemma {:induction false} SortKeepsTickOrder(s: seq<Entry>, t: int)
    ensures WithTick(SortByTick(s), t) == WithTick(s, t)
    decreases |s|
  {
    if |s| > 0 {
      var init := s[..|s| - 1];
      var x := s[|s| - 1];
      assert s == init + [x];
      SortKeepsTickOrder(init, t);
      StableStep(init, x, SortByTick(init), t);
      assert SortByTick(s) == Insert(x, SortByTick(init));
    }
  }

  /** One insertion step keeps, for tick t, the order of the entries seen so far followed by x. */
  lemma StableStep(init: seq<Entry>, x: Entry, sorted: seq<Entry>, t: int)
    requires SortedByTick(sorted) && WithTick(sorted, t) == WithTick(init, t)
    ensures WithTick(Insert(x, sorted), t) == WithTick(init + [x], t)
  {
    WithTickInsert(x, sorted, t);
    WithTickAppend(init, [x], t);
    assert WithTick([x], t) == (if x.tick == t then [x] else []) + WithTick([x][1..], t);
  }

  // ---- The viewer -------------------------------------------------------------

  /** The playback state: timeline, snapshot table, position, current tick, and whether it is playing. */
  datatype Player = Player(timeline: seq<Entry>, snapshots: map<int, Json>, index: int, currentTick: int, playing: bool)

  /** The position always names a timeline entry, or is 0 on an empty timeline. */
  predicate Valid(p: Player) {
    && 0 <= p.index
    && (|p.timeline| == 0 ==> p.index == 0)
    && (|p.timeline| > 0 ==> p.index < |p.timeline|)
  }

  /** The current tick is the tick of the entry at the current position. */
  predicate Synced(p: Player)
    requires Valid(p)
  {
    |p.timeline| > 0 ==> p.currentTick == p.timeline[p.index].tick
  }

  /** The constructor's playback fields followed by `_build_timeline`. */
  function Build(events: seq<Json>): (r: Result<Player>)
    ensures r.Success? <==> EntriesOf(events).Success?
    ensures r.Success? ==>
      var es := EntriesOf(events).value;
      var p := r.value;
      && Valid(p) && Synced(p) && p.index == 0 && !p.playing
      && SortedByTick(p.timeline) && multiset(p.timeline) == multiset(es)
      && p.snapshots == SnapshotsOf(es)
      && (|p.timeline| == 0 ==> p.currentTick == 0)
      && (forall k :: 0 <= k < |p.timeline| ==> p.currentTick <= p.timeline[k].tick)
  {
    var es :- EntriesOf(events);
    var timeline := SortByTick(es);
    Success(Player(timeline, SnapshotsOf(es), 0, if |timeline| > 0 then timeline[0].tick else 0, false))
  }

  /** `step_forward`: pause, and move to the next entry unless at the last. */
  function StepForward(p: Player): (r: Player)
    requires Valid(p)
    ensures Valid(r) && !r.playing && r.timeline == p.timeline && r.snapshots == p.snapshots
    ensures p.index < |p.timeline| - 1 ==> r.index == p.index + 1 && r.currentTick == p.timeline[p.index + 1].tick
    ensures p.index >= |p.timeline| - 1 ==> r == p.(playing := false)
  {
    if p.index < |p.timeline| - 1 then
      p.(playing := false, index := p.index + 1, currentTick := p.timeline[p.index + 1].tick)
    else p.(playing := false)
  }

  /** `step_backward`: pause, and move to the previous entry unless at the first. */
  function StepBackward(p: Player): (r: Player)
    requires Valid(p)
    ensures Valid(r) && !r.playing && r.timeline == p.timeline && r.snapshots == p.snapshots
    ensures p.index > 0 ==> r.index == p.index - 1 && r.currentTick == p.timeline[p.index - 1].tick
    ensures p.index == 0 ==> r == p.(playing := false)
  {
    if p.index > 0 then
      p.(playing := false, index := p.index - 1, currentTick := p.timeline[p.index - 1].tick)
    else p.(playing := false)
  }

  /** `reset`: pause at the first entry. */
  function Rewind(p: Player): (r: Player)
    ensures Valid(r) && Synced(r) && r.index == 0 && !r.playing && r.timeline == p.timeline
    ensures |p.timeline| == 0 ==> r.currentTick == p.currentTick
  {
    p.(playing := false, index := 0, currentTick := if |p.timeline| > 0 then p.timeline[0].tick else p.currentTick)
  }

  /**
   * `_update_playback` with `increment` = `int(playback_speed)`: advance the
   * tick and clamp it to the last entry's tick, pausing when clamped. The
   * position is not moved.
   */
  function UpdatePlayback(p: Player, increment: int): (r: Player)
    ensures r.index == p.index && r.timeline == p.timeline && r.snapshots == p.snapshots
    ensures |p.timeline| > 0 ==> r.currentTick <= p.timeline[|p.timeline| - 1].tick
    ensures |p.timeline| > 0 && p.currentTick + increment > p.timeline[|p.timeline| - 1].tick ==>
              r.currentTick == p.timeline[|p.timeline| - 1].tick && !r.playing
    ensures |p.timeline| == 0 || p.currentTick + increment <= p.timeline[|p.timeline| - 1].tick ==>
              r == p.(currentTick := p.currentTick + increment)
  {
    var t := p.currentTick + increment;
    if |p.timeline| > 0 && t > p.timeline[|p.timeline| - 1].tick then
      p.(currentTick := p.timeline[|p.timeline| - 1].tick, playing := false)
    else p.(currentTick := t)
  }

  /** Stepping forward and then back returns to the same entry and tick. */
  lemma ForwardThenBack(p: Player)
    requires Valid(p) && Synced(p) && p.index < |p.timeline| - 1
    ensures var q := StepBackward(StepForward(p));
      q.index == p.index && q.currentTick == p.currentTick && !q.playing
  {
  }

  /** On a sorted timeline, stepping forward never moves the tick back, and stepping back never moves it forward. */
  lemma SteppingFollowsTime(p: Player)
    requires Valid(p) && Synced(p) && SortedByTick(p.timeline)
    ensures Synced(StepForward(p)) && StepForward(p).currentTick >= p.currentTick
    ensures Synced(StepBackward(p)) && StepBackward(p).currentTick <= p.currentTick
  {
  }

  // ---- Current state ----------------------------------------------------------

  /** Python truthiness of a JSON value. */
  predicate Truthy(j: Json) {
    match j
    case JNull => false
    case JBool(b) => b
    case JInt(i) => i != 0
    case JReal(r) => r != 0.0
    case JStr(s) => s != ""
    case JArr(items) => |items| > 0
    case JObj(fields) => |fields| > 0
  }

  /** The largest key at or before `current`, if any: the first hit of a descending scan. */
  method LatestAtOrBefore(keys: set<int>, current: int) returns (r: Option<int>)
    ensures r.Some? <==> exists t :: t in keys && t <= current
    ensures r.Some? ==> r.value in keys && r.value <= current && forall t :: t in keys && t <= current ==> t <= r.value
  {
    r := None;
    var rest := keys;
    var done: set<int> := {};
    while rest != {}
      invariant rest + done == keys && rest !! done
      invariant r.Some? <==> exists t :: t in done && t <= current
      invariant r.Some? ==> r.value in done && r.value <= current && forall t :: t in done && t <= current ==> t <= r.value
      decreases |rest|
    {
      HasMember(rest);
      var t :| t in rest;
      if t <= current && (r.None? || r.value < t) {
        r := Some(t);
      }
      rest := rest - {t};
      done := done + {t};
    }
  }

  /**
   * `get_current_state`: the snapshot with the largest tick at or before the
   * current tick, or an empty dictionary when there is none. A falsy
   * snapshot also gives the empty dictionary; earlier ones are not tried.
   */
  method CurrentState(p: Player) returns (state: Json)
    ensures (forall t :: t in p.snapshots ==> t > p.currentTick) ==> state == JObj(map[])
    ensures forall t :: t in p.snapshots && t <= p.currentTick
                        && (forall u :: u in p.snapshots && u <= p.currentTick ==> u <= t) ==>
              state == if Truthy(p.snapshots[t]) then p.snapshots[t] else JObj(map[])
  {
    var latest := LatestAtOrBefore(p.snapshots.Keys, p.currentTick);
    if latest.None? {
      return JObj(map[]);
    }
    var snap := p.snapshots[latest.value];
    state := if Truthy(snap) then snap else JObj(map[]);
  }

  // ---- Colours ----------------------------------------------------------------

  predicate IsHexDigit(c: char) {
    '0' <= c <= '9' || 'a' <= c <= 'f' || 'A' <= c <= 'F'
  }

  /** The value of a hex digit (0 for any other character, which the parser rejects first). */
  function HexValue(c: char): (v: nat)
    ensures v < 16
  {
    if '0' <= c <= '9' then c as int - '0' as int
    else if 'a' <= c <= 'f' then c as int - 'a' as int + 10
    else if 'A' <= c <= 'F' then c as int - 'A' as int + 10
    else 0
  }

  function HexDigit(v: nat): (c: char)
    requires v < 16
    ensures IsHexDigit(c) && HexValue(c) == v
  {
    if v < 10 then ('0' as int + v) as char else ('a' as int + v - 10) as char
  }

  predicate AllHex(s: string) {
    forall k :: 0 <= k < |s| ==> IsHexDigit(s[k])
  }

  function HexDigitsValue(s: string): nat {
    if |s| == 0 then 0 else HexDigitsValue(s[..|s| - 1]) * 16 + HexValue(s[|s| - 1])
  }

  /**
   * The characters Python's `int` strips as whitespace: tab through carriage
   * return, the space, and Unicode's other spaces and separators. The
   * information separators U+1C .. U+1F count as whitespace for `str.strip`
   * but not for `int`.
   */
  predicate IsSpace(c: char) {
    || c == ' ' || '\U{9}' <= c <= '\U{D}'
    || c == '\U{85}' || c == '\U{A0}' || c == '\U{1680}' || '\U{2000}' <= c <= '\U{200A}'
    || c == '\U{2028}' || c == '\U{2029}' || c == '\U{202F}' || c == '\U{205F}' || c == '\U{3000}'
  }

  function StripSpace(s: string): (r: string)
    ensures |r| <= |s|
    decreases |s|
  {
    if |s| > 0 && IsSpace(s[0]) then StripSpace(s[1..])
    else if |s| > 0 && IsSpace(s[|s| - 1]) then StripSpace(s[..|s| - 1])
    else s
  }

  /**
   * `int(s, 16)` on the one- or two-character slices the colour parser
   * passes: surrounding whitespace, an optional sign, then hex digits.
   */
  function ParseHex(s: string): (r: Result<int>)
    ensures AllHex(s) && |s| > 0 ==> r == Success(HexDigitsValue(s))
  {
    var t := StripSpace(s);
    var negative := |t| > 0 && t[0] == '-';
    var digits := if |t| > 0 && (t[0] == '+' || t[0] == '-') then t[1..] else t;
    if |digits| == 0 || !AllHex(digits) then Failure("ValueError: invalid literal for int() with base 16: '" + s + "'")
    else Success(if negative then -(HexDigitsValue(digits) as int) else HexDigitsValue(digits))
  }

  /** A no-break space around a digit is stripped; an information separator is not. */
  lemma ParseHexSpaces()
    ensures ParseHex(['\U{A0}', 'f']) == Success(15)
    ensures ParseHex(['\U{1C}', 'f']).Failure?
  {
    assert StripSpace(['\U{A0}', 'f']) == StripSpace(['f']);
  }

  /** `lstrip('#')`. */
  function StripHashes(s: string): (r: string)
    ensures |r| <= |s| && r == s[|s| - |r|..]
    ensures |r| > 0 ==> r[0] != '#'
  {
    if |s| > 0 && s[0] == '#' then StripHashes(s[1..]) else s
  }

  /** Python's slice `s[i:j]` for 0 <= i <= j: clipped to the string. */
  function Slice(s: string, i: nat, j: nat): string
    requires i <= j
  {
    if i >= |s| then [] else if j >= |s| then s[i..] else s[i..j]
  }

  function Components(h: string, starts: seq<nat>): (r: Result<seq<int>>)
    ensures r.Success? ==> |r.value| == |starts|
  {
    if |starts| == 0 then Success([])
    else
      var first :- ParseHex(Slice(h, starts[0], starts[0] + 2));
      var rest :- Components(h, starts[1..]);
      Success([first] + rest)
  }

  /** The offsets `_hex_to_rgb` slices at: four pairs for eight characters, three otherwise. */
  function Starts(h: string): seq<nat> {
    if |h| == 8 then [0, 2, 4, 6] else [0, 2, 4]
  }

  /**
   * `_hex_to_rgb`: after the leading '#'s, eight characters give four
   * components and anything else three, each from a two-character slice.
   */
  function HexToRgb(s: string): Result<seq<int>> {
    var h := StripHashes(s);
    Components(h, Starts(h))
  }

  /** The value of the hex pair at offset i. */
  function PairValue(h: string, i: nat): (v: int)
    requires i + 2 <= |h|
    ensures 0 <= v <= 255
  {
    16 * HexValue(h[i]) + HexValue(h[i + 1])
  }

  function PairValues(h: string, starts: seq<nat>): (r: seq<int>)
    requires forall k :: 0 <= k < |starts| ==> starts[k] + 2 <= |h|
    ensures |r| == |starts|
    ensures forall k :: 0 <= k < |starts| ==> r[k] == PairValue(h, starts[k]) && 0 <= r[k] <= 255
  {
    if |starts| == 0 then [] else [PairValue(h, starts[0])] + PairValues(h, starts[1..])
  }

  lemma PairParses(h: string, i: nat)
    requires i + 2 <= |h| && IsHexDigit(h[i]) && IsHexDigit(h[i + 1])
    ensures ParseHex(Slice(h, i, i + 2)) == Success(PairValue(h, i))
  {
    var pair := Slice(h, i, i + 2);
    assert pair == [h[i], h[i + 1]];
    TwoHexDigits(h[i], h[i + 1]);
  }

  lemma TwoHexDigits(a: char, b: char)
    requires IsHexDigit(a) && IsHexDigit(b)
    ensures AllHex([a, b]) && HexDigitsValue([a, b]) == 16 * HexValue(a) + HexValue(b)
  {
    assert [a, b][..1] == [a];
    assert HexDigitsValue([a]) == HexDigitsValue([]) * 16 + HexValue(a);
  }

  lemma {:induction false} ComponentsOfPairs(h: string, starts: seq<nat>)
    requires AllHex(h)
    requires forall k :: 0 <= k < |starts| ==> starts[k] + 2 <= |h|
    ensures Components(h, starts) == Success(PairValues(h, starts))
    decreases |starts|
  {
    if |starts| > 0 {
      PairParses(h, starts[0]);
      ComponentsOfPairs(h, starts[1..]);
    }
  }

  /**
   * Six or eight hex digits after the '#'s give three or four components,
   * each the value of its pair of digits and so within 0 .. 255.
   */
  lemma HexToRgbOfDigits(s: string)
    requires AllHex(StripHashes(s)) && (|StripHashes(s)| == 6 || |StripHashes(s)| == 8)
    ensures var h := StripHashes(s);
      && HexToRgb(s) == Success(PairValues(h, Starts(h)))
      && |HexToRgb(s).value| == |h| / 2
  {
    var h := StripHashes(s);
    PairsOfDigits(h);
  }

  lemma PairsOfDigits(h: string)
    requires AllHex(h) && (|h| == 6 || |h| == 8)
    ensures Components(h, Starts(h)) == Success(PairValues(h, Starts(h)))
  {
    var st := Starts(h);
    assert forall k :: 0 <= k < |st| ==> st[k] + 2 <= |h|;
    ComponentsOfPairs(h, st);
  }

  /** The two lower-case hex digits of a byte. */
  function ByteHex(v: nat): (s: string)
    requires v < 256
    ensures |s| == 2 && AllHex(s)
  {
    [HexDigit(v / 16), HexDigit(v % 16)]
  }

  /** A byte's two hex digits read back as the byte. */
  lemma ByteHexValue(v: nat)
    requires v < 256
    ensures PairValue(ByteHex(v), 0) == v
  {
  }

  /** Writing a colour as "#rrggbb" and parsing it gives the colour back. */
  lemma RgbRoundTrip(r: nat, g: nat, b: nat)
    requires r < 256 && g < 256 && b < 256
    ensures HexToRgb("#" + ByteHex(r) + ByteHex(g) + ByteHex(b)) == Success([r, g, b])
  {
    var x, y, z := ByteHex(r), ByteHex(g), ByteHex(b);
    var h := x + y + z;
    PairsOfThree(x, y, z);
    assert "#" + x + y + z == "#" + h;
    ByteHexValue(r);
    ByteHexValue(g);
    ByteHexValue(b);
    HexToRgbOfSix(h);
  }

  /** "#" and six hex digits parse as the values of the three pairs. */
  lemma HexToRgbOfSix(h: string)
    requires |h| == 6 && AllHex(h)
    ensures HexToRgb("#" + h) == Success([PairValue(h, 0), PairValue(h, 2), PairValue(h, 4)])
  {
    var s := "#" + h;
    StripOneHash(h);
    HexToRgbAfterHashes(s, h);
    PairsOfDigits(h);
    PairValuesOfSix(h);
  }

  lemma HexToRgbAfterHashes(s: string, h: string)
    requires StripHashes(s) == h
    ensures HexToRgb(s) == Components(h, Starts(h))
  {
  }

  lemma PairValuesOfSix(h: string)
    requires |h| == 6
    ensures PairValues(h, Starts(h)) == [PairValue(h, 0), PairValue(h, 2), PairValue(h, 4)]
  {
    var st := Starts(h);
    assert st == [0, 2, 4];
  }

  /** Three hex pairs side by side: six hex digits whose pairs are the three pairs. */
  lemma PairsOfThree(x: string, y: string, z: string)
    requires |x| == 2 && |y| == 2 && |z| == 2 && AllHex(x) && AllHex(y) && AllHex(z)
    ensures |x + y + z| == 6 && AllHex(x + y + z)
    ensures PairValue(x + y + z, 0) == PairValue(x, 0)
    ensures PairValue(x + y + z, 2) == PairValue(y, 0)
    ensures PairValue(x + y + z, 4) == PairValue(z, 0)
  {
    var h := x + y + z;
    assert h[0] == x[0] && h[1] == x[1] && h[2] == y[0] && h[3] == y[1] && h[4] == z[0] && h[5] == z[1];
  }

  /** One leading '#' in front of hex digits is stripped, and nothing else. */
  lemma StripOneHash(h: string)
    requires |h| > 0 && AllHex(h)
    ensures StripHashes("#" + h) == h
  {
    assert ("#" + h)[1..] == h;
    assert IsHexDigit(h[0]);
  }
}
