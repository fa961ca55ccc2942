/** The pool of validated proxies that a rotator serves from, `src/rotator/pool.rs`. */
module Pool {
  import opened Wrappers

  const MAX_POOL_SIZE := 25
  const MAX_CONSECUTIVE_FAILURES := 3
  /** Seconds. */
  const COOLDOWN := 60
  const USIZE_RANGE := 0x1_0000_0000_0000_0000

  datatype Strategy = Random | RoundRobin

  /** A pooled proxy, named by its `ip:port` text. */
  datatype Entry = Entry(endpoint: string, failures: nat, cooldownUntil: Option<int>)

  predicate Available(e: Entry, now: int) {
    e.cooldownUntil.None? || now >= e.cooldownUntil.value
  }

  // ----- One call on the list of entries -----

  /** Index of the first entry for `endpoint`. */
  function Position(entries: seq<Entry>, endpoint: string): (r: Option<nat>)
    ensures r.Some? ==> r.value < |entries| && entries[r.value].endpoint == endpoint
    ensures r.Some? <==> Pooled(entries, endpoint)
  {
    if entries == [] then None
    else if entries[0].endpoint == endpoint then Some(0)
    else
      var rest := Position(entries[1..], endpoint);
      assert rest.None? ==> forall i :: 0 < i < |entries| ==> entries[i] == entries[1..][i - 1];
      if rest.None? then None else Some(rest.value + 1)
  }

  predicate Pooled(entries: seq<Entry>, endpoint: string) {
    exists i :: 0 <= i < |entries| && entries[i].endpoint == endpoint
  }

  function Added(entries: seq<Entry>, endpoint: string): seq<Entry> {
    if |entries| >= MAX_POOL_SIZE || Pooled(entries, endpoint) then entries
    else entries + [Entry(endpoint, 0, None)]
  }

  function Succeeded(entries: seq<Entry>, endpoint: string): seq<Entry> {
    match Position(entries, endpoint)
    case None => entries
    case Some(i) => entries[i := entries[i].(failures := 0, cooldownUntil := None)]
  }

  /** `Vec::swap_remove`: the last element takes the place of the removed one. */
  function SwapRemove(entries: seq<Entry>, i: nat): seq<Entry>
    requires i < |entries|
  {
    var last := |entries| - 1;
    if i == last then entries[..last] else entries[i := entries[last]][..last]
  }

  function Failed(entries: seq<Entry>, endpoint: string, now: int): seq<Entry> {
    match Position(entries, endpoint)
    case None => entries
    case Some(i) =>
      var failures := entries[i].failures + 1;
      if failures >= MAX_CONSECUTIVE_FAILURES then SwapRemove(entries, i)
      else entries[i := entries[i].(failures := failures, cooldownUntil := Some(now + COOLDOWN))]
  }

  /** Where a running count lands in a pool of `total` entries. */
  function Slot(count: nat, total: nat): (i: nat)
    requires total > 0
    ensures i < total
  {
    count % total
  }

  /** The first available entry at or behind `start`, going round, `offset` of them passed over. */
  function PickFrom(entries: seq<Entry>, start: nat, offset: nat, now: int): (r: Option<nat>)
    requires start < |entries| && offset <= |entries|
    ensures r.Some? ==> r.value < |entries| && Available(entries[r.value], now)
    decreases |entries| - offset
  {
    if offset == |entries| then None
    else
      var i := Slot(start + offset, |entries|);
      if Available(entries[i], now) then Some(i) else PickFrom(entries, start, offset + 1, now)
  }

  // ----- The pool -----

  class RotatorPool {
    var entries: seq<Entry>
    var cursor: nat
    const strategy: Strategy

    ghost predicate Valid()
      reads this
    {
      cursor < USIZE_RANGE && |entries| <= MAX_POOL_SIZE && Distinct(entries)
    }

    constructor (strategy: Strategy)
      ensures Valid() && entries == [] && cursor == 0 && this.strategy == strategy
    {
      this.strategy := strategy;
      entries := [];
      cursor := 0;
    }

    method Add(endpoint: string) returns (added: bool)
      requires Valid()
      modifies this`entries
      ensures Valid() && entries == Added(old(entries), endpoint)
      ensures added <==> |entries| == old(|entries|) + 1
    {
      if |entries| >= MAX_POOL_SIZE {
        return false;
      }
      if exists i :: 0 <= i < |entries| && entries[i].endpoint == endpoint {
        return false;
      }
      entries := entries + [Entry(endpoint, 0, None)];
      return true;
    }

    method Ready(now: int) returns (count: nat)
      ensures count == |set i | 0 <= i < |entries| && Available(entries[i], now)|
    {
      count := 0;
      for i := 0 to |entries|
        invariant count == |set k | 0 <= k < i && Available(entries[k], now)|
      {
        var before := set k | 0 <= k < i && Available(entries[k], now);
        var after := set k | 0 <= k < i + 1 && Available(entries[k], now);
        assert after == if Available(entries[i], now) then before + {i} else before;
        if Available(entries[i], now) {
          count := count + 1;
        }
      }
    }

    /** `random` is what `random_below` would return. */
    method Pick(now: int, random: nat) returns (picked: Option<string>)
      requires Valid()
      requires entries != [] ==> random < |entries|
      modifies this`cursor
      ensures Valid()
      ensures cursor == if strategy == RoundRobin && entries != [] then (old(cursor) + 1) % USIZE_RANGE else old(cursor)
      ensures picked.None? <==> forall i :: 0 <= i < |entries| ==> !Available(entries[i], now)
      ensures entries != [] ==>
                var start := if strategy == Random then random else Slot(old(cursor), |entries|);
                picked == match PickFrom(entries, start, 0, now)
                          case None => None
                          case Some(i) => Some(entries[i].endpoint)
    {
      if entries == [] {
        return None;
      }
      var total := |entries|;
      var start: nat;
      match strategy {
        case Random => start := random;
        case RoundRobin =>
          start := Slot(cursor, total);
          cursor := (cursor + 1) % USIZE_RANGE;
      }
      PickMissesNothing(entries, start, now);
      for offset := 0 to total
        invariant PickFrom(entries, start, offset, now) == PickFrom(entries, start, 0, now)
      {
        var entry := entries[Slot(start + offset, total)];
        if Available(entry, now) {
          return Some(entry.endpoint);
        }
      }
      return None;
    }

    method ReportSuccess(endpoint: string)
      requires Valid()
      modifies this`entries
      ensures Valid() && entries == Succeeded(old(entries), endpoint)
    {
      var position := Position(entries, endpoint);
      if position.Some? {
        var entry := entries[position.value];
        entries := entries[position.value := entry.(failures := 0, cooldownUntil := None)];
      }
    }

    method ReportFailure(endpoint: string, now: int)
      requires Valid()
      modifies this`entries
      ensures Valid() && entries == Failed(old(entries), endpoint, now)
    {
      FailedKeepsDistinct(entries, endpoint, now);
      var position := Position(entries, endpoint);
      if position.None? {
        return;
      }
      var i := position.value;
      var entry := entries[i];
      entries := entries[i := entry.(failures := entry.failures + 1)];
      if entries[i].failures >= MAX_CONSECUTIVE_FAILURES {
        var last := |entries| - 1;
        assert entries[i := entries[last]][..last] == SwapRemove(old(entries), i);
        entries := entries[i := entries[last]][..last];
      } else {
        entries := entries[i := entries[i].(cooldownUntil := Some(now + COOLDOWN))];
      }
    }
  }

  predicate Distinct(entries: seq<Entry>) {
    forall i, j :: 0 <= i < j < |entries| ==> entries[i].endpoint != entries[j].endpoint
  }

  lemma FailedKeepsDistinct(entries: seq<Entry>, endpoint: string, now: int)
    requires Distinct(entries)
    ensures Distinct(Failed(entries, endpoint, now))
  {
  }

  // ----- Picking -----

  /** The walk reaches every entry. */
  lemma PickMissesNothing(entries: seq<Entry>, start: nat, now: int)
    requires start < |entries|
    ensures PickFrom(entries, start, 0, now).None? <==> forall i :: 0 <= i < |entries| ==> !Available(entries[i], now)
  {
    hide Slot, PickFrom;
    if PickFrom(entries, start, 0, now).None? {
      forall i | 0 <= i < |entries| ensures !Available(entries[i], now) {
        SkippedByPick(entries, start, 0, now, TurnOf(start, |entries|, i));
      }
    }
  }

  lemma {:induction false} SkippedByPick(entries: seq<Entry>, start: nat, offset: nat, now: int, k: nat)
    requires start < |entries| && offset <= k < |entries| && PickFrom(entries, start, offset, now).None?
    ensures !Available(entries[Slot(start + k, |entries|)], now)
    decreases |entries| - offset
  {
    hide Slot;
    if offset < k {
      SkippedByPick(entries, start, offset + 1, now, k);
    }
  }

  /** The indices that successive round-robin picks return, one per entry of `nows`. */
  function Picks(entries: seq<Entry>, cursor: nat, nows: seq<int>): seq<Option<nat>>
    requires entries != []
    decreases |nows|
  {
    if nows == [] then []
    else
      [PickFrom(entries, Slot(cursor, |entries|), 0, nows[0])]
      + Picks(entries, (cursor + 1) % USIZE_RANGE, nows[1..])
  }

  lemma {:induction false} PickNumber(entries: seq<Entry>, cursor: nat, nows: seq<int>, k: nat)
    requires entries != [] && k < |nows| && cursor < USIZE_RANGE
    ensures |Picks(entries, cursor, nows)| == |nows|
    ensures Picks(entries, cursor, nows)[k]
         == PickFrom(entries, Slot((cursor + k) % USIZE_RANGE, |entries|), 0, nows[k])
    decreases |nows|
  {
    hide Slot, PickFrom;
    if |nows| > 1 {
      PickNumber(entries, (cursor + 1) % USIZE_RANGE, nows[1..], if k == 0 then 0 else k - 1);
    }
  }

  // ----- Turns -----

  lemma SlotIs(count: nat, total: nat, q: int, i: nat)
    requires i < total && count == q * total + i
    ensures Slot(count, total) == i
  {
    UniqueQuotient(count / total, count % total, q, i, total);
  }

  lemma SlotQuotient(count: nat, total: nat) returns (q: int)
    requires total > 0
    ensures count == q * total + Slot(count, total)
  {
    q := count / total;
  }

  /** Which of `total` consecutive cursor values lands on index `i`. */
  function TurnOf(cursor: nat, total: nat, i: nat): (k: nat)
    requires i < total
    ensures k < total && Slot(cursor + k, total) == i
  {
    var r := Slot(cursor, total);
    TurnLands(cursor, total, i);
    if i >= r then i - r else i + total - r
  }

  lemma TurnLands(cursor: nat, total: nat, i: nat)
    requires i < total
    ensures var r := Slot(cursor, total); Slot(cursor + (if i >= r then i - r else i + total - r), total) == i
  {
    hide Slot;
    var r := Slot(cursor, total);
    var q := SlotQuotient(cursor, total);
    if i >= r {
      SlotIs(cursor + (i - r), total, q, i);
    } else {
      assert (q + 1) * total == q * total + total;
      SlotIs(cursor + (i + total - r), total, q + 1, i);
    }
  }

  lemma DifferentTurns(cursor: nat, total: nat, j: nat, k: nat)
    requires j < k < total
    ensures Slot(cursor + j, total) != Slot(cursor + k, total)
  {
    hide Slot;
    var q := SlotQuotient(cursor + j, total);
    var r := Slot(cursor + j, total);
    var moved := r + (k - j);
    if moved < total {
      SlotIs(cursor + k, total, q, moved);
    } else {
      assert (q + 1) * total == q * total + total;
      SlotIs(cursor + k, total, q + 1, moved - total);
    }
  }

  /** The cursor does not wrap in the next round, or the pool's size divides its range. */
  predicate InStep(cursor: nat, total: nat)
    requires total > 0
  {
    cursor + total <= USIZE_RANGE || Slot(USIZE_RANGE, total) == 0
  }

  /** Turns go on as if the cursor never wrapped. */
  lemma TurnInStep(cursor: nat, total: nat, k: nat)
    requires k < total <= USIZE_RANGE && cursor < USIZE_RANGE && InStep(cursor, total)
    ensures Slot((cursor + k) % USIZE_RANGE, total) == Slot(cursor + k, total)
  {
    hide Slot;
    if cursor + k >= USIZE_RANGE {
      var rest := cursor + k - USIZE_RANGE;
      var q := SlotQuotient(rest, total);
      var laps := SlotQuotient(USIZE_RANGE, total);
      assert (q + laps) * total == q * total + laps * total;
      SlotIs(cursor + k, total, q + laps, Slot(rest, total));
    }
  }

  /** Two turns of a round that wraps out of step land on the same entry. */
  lemma TurnsCollide(cursor: nat, total: nat) returns (j: nat, k: nat)
    requires 0 < total <= USIZE_RANGE && cursor < USIZE_RANGE && !InStep(cursor, total)
    ensures j < k < total
    ensures Slot((cursor + j) % USIZE_RANGE, total) == Slot((cursor + k) % USIZE_RANGE, total)
  {
    hide Slot;
    var before := USIZE_RANGE - cursor;
    var r := Slot(USIZE_RANGE, total);
    var q := SlotQuotient(USIZE_RANGE, total);
    var i: nat;
    if r + before <= total {
      i, j, k := r - 1, before - 1, before + r - 1;
    } else {
      i, j, k := total - before - 1, total - r - 1, total - 1;
    }
    SlotIs(cursor + j, total, q, i);
    SlotIs(cursor + k - USIZE_RANGE, total, 0, i);
  }

  /** Over as many consecutive round-robin picks as there are entries, on a pool that does not change
      and a cursor that stays in step, every entry that stays available is picked. */
  lemma EveryEntryGetsATurn(entries: seq<Entry>, cursor: nat, nows: seq<int>, i: nat)
    requires |nows| == |entries| <= USIZE_RANGE && i < |entries|
    requires cursor < USIZE_RANGE && InStep(cursor, |entries|)
    requires forall k :: 0 <= k < |nows| ==> Available(entries[i], nows[k])
    ensures Some(i) in Picks(entries, cursor, nows)
  {
    hide Slot, Picks, InStep;
    var k := TurnOf(cursor, |entries|, i);
    PickNumber(entries, cursor, nows, k);
    TurnInStep(cursor, |entries|, k);
    PickHere(entries, i, nows[k]);
    assert Picks(entries, cursor, nows)[k] == Some(i);
  }

  lemma PickHere(entries: seq<Entry>, i: nat, now: int)
    requires i < |entries| && Available(entries[i], now)
    ensures PickFrom(entries, i, 0, now) == Some(i)
  {
    hide Slot;
    SlotIs(i, |entries|, 0, i);
  }

  /** Each of `total` indices is among the picks, none twice. */
  ghost predicate EachOnce(picks: seq<Option<nat>>, total: nat) {
    && |picks| == total
    && (forall i: nat :: i < total ==> Some(i) in picks)
    && (forall j, k :: 0 <= j < k < total ==> picks[j] != picks[k])
  }

  /** If all entries are available all the time, a round picks each exactly once if and only if the
      cursor stays in step: it does not wrap, or wraps where a round ends anyway. */
  lemma OnePickEach(entries: seq<Entry>, cursor: nat, nows: seq<int>)
    requires entries != [] && |nows| == |entries| <= USIZE_RANGE && cursor < USIZE_RANGE
    requires forall i, k :: 0 <= i < |entries| && 0 <= k < |nows| ==> Available(entries[i], nows[k])
    ensures EachOnce(Picks(entries, cursor, nows), |entries|) <==> InStep(cursor, |entries|)
  {
    hide Slot, Picks, PickFrom, InStep;
    var total, picks := |entries|, Picks(entries, cursor, nows);
    PickNumber(entries, cursor, nows, 0);
    if InStep(cursor, total) {
      forall i: nat | i < total ensures Some(i) in picks {
        EveryEntryGetsATurn(entries, cursor, nows, i);
      }
      forall j, k | 0 <= j < k < total ensures picks[j] != picks[k] {
        PickIsTurn(entries, cursor, nows, j);
        PickIsTurn(entries, cursor, nows, k);
        TurnInStep(cursor, total, j);
        TurnInStep(cursor, total, k);
        DifferentTurns(cursor, total, j, k);
      }
    } else {
      var j, k := TurnsCollide(cursor, total);
      PickIsTurn(entries, cursor, nows, j);
      PickIsTurn(entries, cursor, nows, k);
      assert picks[j] == picks[k];
    }
  }

  lemma PickIsTurn(entries: seq<Entry>, cursor: nat, nows: seq<int>, k: nat)
    requires k < |nows| == |entries| && cursor < USIZE_RANGE
    requires forall i :: 0 <= i < |entries| ==> Available(entries[i], nows[k])
    ensures |Picks(entries, cursor, nows)| == |nows|
    ensures Picks(entries, cursor, nows)[k] == Some(Slot((cursor + k) % USIZE_RANGE, |entries|))
  {
    hide Slot, Picks, PickFrom;
    PickNumber(entries, cursor, nows, k);
    PickHere(entries, Slot((cursor + k) % USIZE_RANGE, |entries|), nows[k]);
  }

  /** Where the cursor wraps, an entry can be served twice in a row: with three entries, at the last
      cursor value. */
  lemma WrapRepeats(a: Entry, b: Entry, c: Entry)
    requires a.cooldownUntil.None?
    ensures Picks([a, b, c], USIZE_RANGE - 1, [0, 0]) == [Some(0), Some(0)]
  {
    var entries := [a, b, c];
    assert Slot(USIZE_RANGE - 1, 3) == 0 && Slot(0, 3) == 0;
    PickHere(entries, 0, 0);
    assert [0, 0][1..] == [0] && [0][1..] == [];
    assert Picks(entries, 0, [0]) == [Some(0)] + Picks(entries, 1, []);
  }

  // ----- Whole histories -----

  datatype Event = Add(endpoint: string) | Succeed(endpoint: string) | Fail(endpoint: string, now: int) | Pick

  function Do(entries: seq<Entry>, e: Event): seq<Entry> {
    match e
    case Add(endpoint) => Added(entries, endpoint)
    case Succeed(endpoint) => Succeeded(entries, endpoint)
    case Fail(endpoint, now) => Failed(entries, endpoint, now)
    case Pick => entries
  }

  /** The entries after a history of calls on a new pool. */
  function After(events: seq<Event>): seq<Entry> {
    if events == [] then [] else Do(After(events[..|events| - 1]), events[|events| - 1])
  }

  /** The failure reports on `endpoint` since it was last inserted or last succeeded. */
  function FailuresSince(events: seq<Event>, endpoint: string): nat {
    if events == [] then 0
    else
      var before, e := events[..|events| - 1], events[|events| - 1];
      match e
      case Fail(name, _) => FailuresSince(before, endpoint) + (if name == endpoint then 1 else 0)
      case Succeed(name) => if name == endpoint then 0 else FailuresSince(before, endpoint)
      case Add(name) =>
        if name == endpoint && !Pooled(After(before), endpoint) then 0 else FailuresSince(before, endpoint)
      case Pick => FailuresSince(before, endpoint)
  }

  /** When the last of those reports was made. */
  function LastFailure(events: seq<Event>, endpoint: string): Option<int> {
    if events == [] then None
    else
      var before, e := events[..|events| - 1], events[|events| - 1];
      match e
      case Fail(name, now) => if name == endpoint then Some(now) else LastFailure(before, endpoint)
      case Succeed(name) => if name == endpoint then None else LastFailure(before, endpoint)
      case Add(name) =>
        if name == endpoint && !Pooled(After(before), endpoint) then None else LastFailure(before, endpoint)
      case Pick => LastFailure(before, endpoint)
  }

  /** An entry is what its history makes it. */
  predicate Accounted(events: seq<Event>, e: Entry) {
    && e.failures == FailuresSince(events, e.endpoint) < MAX_CONSECUTIVE_FAILURES
    && (e.cooldownUntil.Some? <==> e.failures > 0)
    && e.cooldownUntil == match LastFailure(events, e.endpoint) case None => None case Some(t) => Some(t + COOLDOWN)
  }

  predicate PoolInv(events: seq<Event>, entries: seq<Entry>) {
    && |entries| <= MAX_POOL_SIZE
    && Distinct(entries)
    && forall i :: 0 <= i < |entries| ==> Accounted(events, entries[i])
  }

  lemma StepKeepsPool(events: seq<Event>, e: Event)
    requires PoolInv(events, After(events))
    ensures PoolInv(events + [e], After(events + [e]))
  {
    hide FailuresSince, LastFailure, SwapRemove;
    var entries, all := After(events), events + [e];
    assert all[..|events|] == events;
    var entries' := Do(entries, e);
    forall i | 0 <= i < |entries'| ensures Accounted(all, entries'[i]) {
      SinceStep(events, e, entries'[i].endpoint);
      if e.Fail? && Position(entries, e.endpoint).Some?
         && entries[Position(entries, e.endpoint).value].failures + 1 >= MAX_CONSECUTIVE_FAILURES {
        SwapRemoveMembers(entries, Position(entries, e.endpoint).value);
      }
    }
    if e.Fail? {
      FailedKeepsDistinct(entries, e.endpoint, e.now);
      if Position(entries, e.endpoint).Some? {
        SwapRemoveMembers(entries, Position(entries, e.endpoint).value);
      }
    }
  }

  lemma SinceStep(events: seq<Event>, e: Event, endpoint: string)
    ensures FailuresSince(events + [e], endpoint)
         == match e
            case Fail(name, _) => FailuresSince(events, endpoint) + (if name == endpoint then 1 else 0)
            case Succeed(name) => if name == endpoint then 0 else FailuresSince(events, endpoint)
            case Add(name) =>
              if name == endpoint && !Pooled(After(events), endpoint) then 0 else FailuresSince(events, endpoint)
            case Pick => FailuresSince(events, endpoint)
    ensures LastFailure(events + [e], endpoint)
         == match e
            case Fail(name, now) => if name == endpoint then Some(now) else LastFailure(events, endpoint)
            case Succeed(name) => if name == endpoint then None else LastFailure(events, endpoint)
            case Add(name) =>
              if name == endpoint && !Pooled(After(events), endpoint) then None else LastFailure(events, endpoint)
            case Pick => LastFailure(events, endpoint)
  {
    assert (events + [e])[..|events|] == events;
  }

  lemma SwapRemoveMembers(entries: seq<Entry>, p: nat)
    requires p < |entries| && Distinct(entries)
    ensures |SwapRemove(entries, p)| == |entries| - 1
    ensures forall i :: 0 <= i < |entries| - 1 ==>
              SwapRemove(entries, p)[i] in entries && SwapRemove(entries, p)[i].endpoint != entries[p].endpoint
    ensures forall j :: 0 <= j < |entries| && j != p ==> entries[j] in SwapRemove(entries, p)
  {
    var last := |entries| - 1;
    var kept := SwapRemove(entries, p);
    forall j | 0 <= j < |entries| && j != p ensures entries[j] in kept {
      assert kept[if j == last then p else j] == entries[j];
    }
  }

  /** After any history of calls, the endpoints are distinct and at most 25, and each entry's failures
      and cooldown are exactly what was reported since its insertion or last success. */
  lemma {:induction false} HistoryInvariant(events: seq<Event>)
    ensures PoolInv(events, After(events))
  {
    if events != [] {
      var before := events[..|events| - 1];
      HistoryInvariant(before);
      StepKeepsPool(before, events[|events| - 1]);
      assert before + [events[|events| - 1]] == events;
    }
  }

  /** An endpoint leaves the pool exactly on its third such failure. */
  lemma LeavesOnThirdFailure(events: seq<Event>, e: Event, endpoint: string)
    requires Pooled(After(events), endpoint)
    ensures !Pooled(After(events + [e]), endpoint)
       <==> e.Fail? && e.endpoint == endpoint && FailuresSince(events, endpoint) == MAX_CONSECUTIVE_FAILURES - 1
  {
    hide FailuresSince, LastFailure, SwapRemove;
    HistoryInvariant(events);
    var entries := After(events);
    assert (events + [e])[..|events|] == events;
    var i :| 0 <= i < |entries| && entries[i].endpoint == endpoint;
    var entries' := Do(entries, e);
    if e.Fail? && Position(entries, e.endpoint).Some? {
      var p := Position(entries, e.endpoint).value;
      SwapRemoveMembers(entries, p);
      if p != i && entries[p].failures + 1 >= MAX_CONSECUTIVE_FAILURES {
        var k :| 0 <= k < |entries'| && entries'[k] == entries[i];
        assert entries'[k].endpoint == endpoint;
      } else if p != i || entries[p].failures + 1 < MAX_CONSECUTIVE_FAILURES {
        assert entries'[i].endpoint == endpoint;
      }
    } else {
      assert entries'[i].endpoint == endpoint;
    }
  }

  // ----- Which entries are served -----

  /** Less than 60 seconds have passed since the endpoint's last failure. */
  predicate Resting(events: seq<Event>, endpoint: string, now: int) {
    LastFailure(events, endpoint).Some? && now < LastFailure(events, endpoint).value + 60
  }

  lemma AvailableUnlessResting(events: seq<Event>, now: int, i: nat)
    requires i < |After(events)|
    ensures Available(After(events)[i], now) <==> !Resting(events, After(events)[i].endpoint, now)
  {
    hide After, LastFailure, FailuresSince;
    HistoryInvariant(events);
    assert Accounted(events, After(events)[i]);
  }

  /** The entry `k` steps behind `start`, going round. */
  function Turn(start: nat, k: nat, total: nat): (i: nat)
    requires total > 0
    ensures i < total
  {
    (start + k) % total
  }

  lemma {:induction false} PickIsFirst(entries: seq<Entry>, start: nat, offset: nat, now: int)
    requires start < |entries| && offset <= |entries| && PickFrom(entries, start, offset, now).Some?
    ensures exists k: nat :: offset <= k < |entries|
              && PickFrom(entries, start, offset, now).value == Turn(start, k, |entries|)
              && forall o: nat :: offset <= o < k ==> !Available(entries[Turn(start, o, |entries|)], now)
    decreases |entries| - offset
  {
    assert Slot(start + offset, |entries|) == Turn(start, offset, |entries|);
    hide Slot, Turn;
    if Available(entries[Turn(start, offset, |entries|)], now) {
      assert PickFrom(entries, start, offset, now).value == Turn(start, offset, |entries|);
    } else {
      PickIsFirst(entries, start, offset + 1, now);
      var k: nat :| offset + 1 <= k < |entries|
        && PickFrom(entries, start, offset + 1, now).value == Turn(start, k, |entries|)
        && forall o: nat :: offset + 1 <= o < k ==> !Available(entries[Turn(start, o, |entries|)], now);
      assert forall o: nat :: offset <= o < k ==> !Available(entries[Turn(start, o, |entries|)], now);
    }
  }

  /** After any history, a pick serves nothing exactly when every pooled endpoint has failed less than 60
      seconds ago. Otherwise it serves the first that has not, from its start on and going round. */
  lemma PickAfterHistory(events: seq<Event>, start: nat, now: int)
    requires start < |After(events)|
    ensures var entries := After(events);
            var picked := PickFrom(entries, start, 0, now);
            && (picked.None? <==> forall i: nat :: i < |entries| ==> Resting(events, entries[i].endpoint, now))
            && (picked.Some? ==>
                  && !Resting(events, entries[picked.value].endpoint, now)
                  && exists k: nat :: k < |entries| && picked.value == Turn(start, k, |entries|)
                       && forall o: nat :: o < k ==> Resting(events, entries[Turn(start, o, |entries|)].endpoint, now))
  {
    hide Slot, Turn, After, Resting, Available, LastFailure;
    var entries := After(events);
    forall i: nat | i < |entries|
      ensures Available(entries[i], now) <==> !Resting(events, entries[i].endpoint, now)
    {
      AvailableUnlessResting(events, now, i);
    }
    PickMissesNothing(entries, start, now);
    if PickFrom(entries, start, 0, now).Some? {
      PickIsFirst(entries, start, 0, now);
    }
  }

  /** What `Ready` counts: the pooled endpoints that have not failed within the last 60 seconds. */
  lemma ReadyAfterHistory(events: seq<Event>, now: int)
    ensures (set i | 0 <= i < |After(events)| && Available(After(events)[i], now))
         == (set i | 0 <= i < |After(events)| && !Resting(events, After(events)[i].endpoint, now))
  {
    hide After, Resting, Available;
    forall i: nat | i < |After(events)|
      ensures Available(After(events)[i], now) <==> !Resting(events, After(events)[i].endpoint, now)
    {
      AvailableUnlessResting(events, now, i);
    }
  }

  // ----- How the pool grows and shrinks -----

  /** An endpoint that is not pooled enters at the end with no failures, as long as there are fewer than
      25; anything else changes nothing. */
  lemma AddAfterHistory(events: seq<Event>, endpoint: string)
    ensures |After(events)| <= 25
    ensures After(events + [Add(endpoint)])
         == if |After(events)| < 25 && (forall i :: 0 <= i < |After(events)| ==> After(events)[i].endpoint != endpoint)
            then After(events) + [Entry(endpoint, 0, None)] else After(events)
  {
    HistoryInvariant(events);
    assert (events + [Add(endpoint)])[..|events|] == events;
  }

  /** The last entry takes the place of one that leaves on its third failure; the others stay in theirs. */
  lemma LeaverIsReplaced(events: seq<Event>, i: nat, now: int)
    requires i < |After(events)| && FailuresSince(events, After(events)[i].endpoint) == 2
    ensures var entries, left := After(events), After(events + [Fail(After(events)[i].endpoint, now)]);
            && |left| == |entries| - 1
            && forall k :: 0 <= k < |left| ==> left[k] == entries[if k == i then |entries| - 1 else k]
  {
    hide After, FailuresSince, LastFailure;
    HistoryInvariant(events);
    var entries := After(events);
    var e := Fail(entries[i].endpoint, now);
    assert Accounted(events, entries[i]);
    AfterSnoc(events, e);
    assert Position(entries, entries[i].endpoint) == Some(i);
  }

  lemma AfterSnoc(events: seq<Event>, e: Event)
    ensures After(events + [e]) == Do(After(events), e)
  {
    assert (events + [e])[..|events|] == events;
  }
}
