/** The in-memory memo in front of the row cache, `src/fetcher/cache.rs`: the table itself, and loads
    that interleave with each other and with files being installed or removed. */
module Memo {
  import opened Wrappers
  import opened RowCodec

  type Path = string
  type Time = int
  type Table = map<Path, (Time, seq<Row>)>

  const MEMO_MAX_ENTRIES := 256

  // ----- The table -----

  function Recalled(table: Table, path: Path, modified: Time): Option<seq<Row>> {
    if path in table && table[path].0 == modified then Some(table[path].1) else None
  }

  function Remembered(table: Table, path: Path, modified: Time, rows: seq<Row>): Table {
    (if |table| >= MEMO_MAX_ENTRIES then map[] else table)[path := (modified, rows)]
  }

  class MemoTable {
    var entries: Table

    constructor ()
      ensures entries == map[]
    {
      entries := map[];
    }

    method Recall(path: Path, modified: Time) returns (rows: Option<seq<Row>>)
      ensures rows == Recalled(entries, path, modified)
    {
      if path !in entries {
        return None;
      }
      var (cachedTime, cachedRows) := entries[path];
      if cachedTime != modified {
        return None;
      }
      return Some(cachedRows);
    }

    method Remember(path: Path, modified: Time, rows: seq<Row>)
      modifies this
      ensures entries == Remembered(old(entries), path, modified, rows)
      ensures |entries| <= MEMO_MAX_ENTRIES
    {
      RememberedSize(entries, path, modified, rows);
      if |entries| >= MEMO_MAX_ENTRIES {
        entries := map[];
      }
      entries := entries[path := (modified, rows)];
    }

    method Forget(path: Path)
      modifies this
      ensures entries == old(entries) - {path}
    {
      entries := entries - {path};
    }
  }

  lemma RememberedSize(table: Table, path: Path, modified: Time, rows: seq<Row>)
    ensures |Remembered(table, path, modified, rows)| <= MEMO_MAX_ENTRIES
  {
    var base := if |table| >= MEMO_MAX_ENTRIES then map[] else table;
    var added := base[path := (modified, rows)];
    assert added.Keys == base.Keys + {path};
    assert |added.Keys| <= |base.Keys| + 1;
  }

  // ----- Loads and installs as interleaved steps -----

  datatype Version = Version(modified: Time, body: seq<byte>)

  /** Everything that was ever at a path, oldest first; `None` is an absent file. The last entry is
      what is there now. */
  type History = seq<Option<Version>>

  datatype Stage =
    | Started
    | Statted(modified: Time)
    | Missed(modified: Time)
    | HaveBody(modified: Time, body: seq<byte>)
    | Decoded(modified: Time, rows: seq<Row>)
    | Returned(result: Option<seq<Row>>, until: nat)

  /** A load in progress. `since` is the version that was current when it began; a finished load also
      records how many versions there had been by then. */
  datatype Load = Load(path: Path, since: nat, stage: Stage)

  datatype State = State(files: map<Path, History>, memo: Table, loads: map<nat, Load>)

  datatype Event =
    | Begin(id: nat, path: Path, refresh: bool)
    | Stat(id: nat)
    | Expire(id: nat)
    | Recall(id: nat)
    | Read(id: nat)
    | Decode(id: nat)
    | Remember(id: nat)
    | Install(path: Path, version: Version)
    | Remove(path: Path)

  const INITIAL := State(map[], map[], map[])

  function HistoryOf(s: State, path: Path): History {
    if path in s.files then s.files[path] else []
  }

  function Current(h: History): Option<Version> {
    if h == [] then None else h[|h| - 1]
  }

  predicate Stamped(h: History, v: nat, modified: Time) {
    v < |h| && h[v].Some? && h[v].value.modified == modified
  }

  /** Whether `e` can happen in `s`. Files come and go at any time, with any modification time. */
  predicate Enabled(s: State, e: Event) {
    match e
    case Begin(id, _, _) => id !in s.loads
    case Stat(id) => id in s.loads && s.loads[id].stage.Started?
    case Expire(id) => id in s.loads && s.loads[id].stage.Statted?
    case Recall(id) => id in s.loads && s.loads[id].stage.Statted?
    case Read(id) => id in s.loads && s.loads[id].stage.Missed?
    case Decode(id) => id in s.loads && s.loads[id].stage.HaveBody?
    case Remember(id) => id in s.loads && s.loads[id].stage.Decoded?
    case Install(_, _) => true
    case Remove(_) => true
  }

  function At(s: State, id: nat, stage: Stage): State
    requires id in s.loads
  {
    s.(loads := s.loads[id := s.loads[id].(stage := stage)])
  }

  function Finish(s: State, id: nat, result: Option<seq<Row>>): State
    requires id in s.loads
  {
    At(s, id, Returned(result, |HistoryOf(s, s.loads[id].path)|))
  }

  function Do(s: State, e: Event): State
    requires Enabled(s, e)
  {
    match e
    case Begin(id, path, refresh) =>
      var h := HistoryOf(s, path);
      var since := if h == [] then 0 else |h| - 1;
      var begun := s.(loads := s.loads[id := Load(path, since, Started)]);
      if refresh then Finish(begun, id, None) else begun
    case Stat(id) =>
      var current := Current(HistoryOf(s, s.loads[id].path));
      if current.None? then Finish(s, id, None) else At(s, id, Statted(current.value.modified))
    case Expire(id) =>
      Finish(s.(memo := s.memo - {s.loads[id].path}), id, None)
    case Recall(id) =>
      var load := s.loads[id];
      var rows := Recalled(s.memo, load.path, load.stage.modified);
      if rows.Some? then Finish(s, id, rows) else At(s, id, Missed(load.stage.modified))
    case Read(id) =>
      var load := s.loads[id];
      var current := Current(HistoryOf(s, load.path));
      if current.None? then Finish(s, id, None)
      else At(s, id, HaveBody(load.stage.modified, current.value.body))
    case Decode(id) =>
      var load := s.loads[id];
      var rows := DecodeBody(load.stage.body);
      if rows.None? || rows.value == [] then Finish(s, id, None)
      else At(s, id, Decoded(load.stage.modified, rows.value))
    case Remember(id) =>
      var load := s.loads[id];
      var memo := Remembered(s.memo, load.path, load.stage.modified, load.stage.rows);
      Finish(s.(memo := memo), id, Some(load.stage.rows))
    case Install(path, version) => s.(files := s.files[path := HistoryOf(s, path) + [Some(version)]])
    case Remove(path) => s.(files := s.files[path := HistoryOf(s, path) + [None]])
  }

  /** The state after `events`, if each of them could happen. */
  function Replay(events: seq<Event>): Option<State>
    decreases |events|
  {
    if events == [] then Some(INITIAL)
    else
      var s :- Replay(events[..|events| - 1]);
      var e := events[|events| - 1];
      if Enabled(s, e) then Some(Do(s, e)) else None
  }

  // ----- The invariant -----

  predicate Holds(h: History, v: nat, body: seq<byte>) {
    v < |h| && h[v].Some? && h[v].value.body == body
  }

  predicate Shows(h: History, v: nat, rows: seq<Row>) {
    v < |h| && h[v].Some? && DecodeBody(h[v].value.body) == Some(rows)
  }

  /** A version stamped `modified`, not older than `since`, and one not older than that with these rows. */
  ghost predicate Witnessed(h: History, since: nat, modified: Time, rows: seq<Row>) {
    exists k: nat, v: nat :: since <= k <= v && Stamped(h, k, modified) && Shows(h, v, rows)
  }

  ghost predicate BodyWitnessed(h: History, since: nat, modified: Time, body: seq<byte>) {
    exists k: nat, v: nat :: since <= k <= v && Stamped(h, k, modified) && Holds(h, v, body)
  }

  ghost predicate Seen(h: History, since: nat, modified: Time) {
    exists k: nat :: since <= k && Stamped(h, k, modified)
  }

  /** One of the versions from `since` up to, but not including, `until` has these rows. */
  ghost predicate ShownWithin(h: History, since: nat, until: nat, rows: seq<Row>) {
    exists v: nat :: since <= v < until && Shows(h, v, rows)
  }

  /** A file that gets back a modification time it had before shows whatever rows it showed in
      between. Lists without rows are never remembered, so they do not matter. */
  ghost predicate Faithful(h: History) {
    forall k: nat, u: nat, w: nat, rows: seq<Row> :: !Misleads(h, k, u, w, rows)
  }

  /** Version `w` has the time of version `k`, and not the rows that version `u` has had since. */
  predicate Misleads(h: History, k: nat, u: nat, w: nat, rows: seq<Row>) {
    && k <= u < w < |h| && rows != []
    && h[k].Some? && Stamped(h, w, h[k].value.modified)
    && Shows(h, u, rows) && !Shows(h, w, rows)
  }

  ghost predicate LoadOk(h: History, load: Load) {
    match load.stage
    case Started => load.since <= |h|
    case Statted(modified) => Seen(h, load.since, modified)
    case Missed(modified) => Seen(h, load.since, modified)
    case HaveBody(modified, body) => BodyWitnessed(h, load.since, modified, body)
    case Decoded(modified, rows) => rows != [] && Witnessed(h, load.since, modified, rows)
    case Returned(None, _) => true
    case Returned(Some(rows), until) =>
      rows != [] && until <= |h| && (Faithful(h) ==> ShownWithin(h, load.since, until, rows))
  }

  /** `Begin` records the current version, so no later stat can see an older one. */
  predicate SinceOk(h: History, load: Load) {
    load.since == 0 || load.since < |h|
  }

  ghost predicate Inv(s: State) {
    && |s.memo| <= MEMO_MAX_ENTRIES
    && (forall path :: path in s.memo ==>
          s.memo[path].1 != [] && Witnessed(HistoryOf(s, path), 0, s.memo[path].0, s.memo[path].1))
    && (forall id :: id in s.loads ==>
          SinceOk(HistoryOf(s, s.loads[id].path), s.loads[id]) && LoadOk(HistoryOf(s, s.loads[id].path), s.loads[id]))
  }

  /** Facts about a history stay true when it grows. */
  lemma GrowthKeeps(h: History, next: Option<Version>, load: Load)
    requires LoadOk(h, load)
    ensures LoadOk(h + [next], load)
  {
    var g := h + [next];
    match load.stage
    case Started =>
    case Statted(modified) =>
      var k: nat :| load.since <= k && Stamped(h, k, modified);
      assert Stamped(g, k, modified);
    case Missed(modified) =>
      var k: nat :| load.since <= k && Stamped(h, k, modified);
      assert Stamped(g, k, modified);
    case HaveBody(modified, body) =>
      var k: nat, v: nat :| load.since <= k <= v && Stamped(h, k, modified) && Holds(h, v, body);
      assert Stamped(g, k, modified) && Holds(g, v, body);
    case Decoded(modified, rows) => WitnessGrows(h, next, load.since, modified, rows);
    case Returned(None, _) =>
    case Returned(Some(rows), until) =>
      if Faithful(g) {
        FaithfulBefore(h, next);
        var v: nat :| load.since <= v < until && Shows(h, v, rows);
        assert Shows(g, v, rows);
      }
  }

  /** A history was faithful before its last version, if it is now. */
  lemma FaithfulBefore(h: History, next: Option<Version>)
    requires Faithful(h + [next])
    ensures Faithful(h)
  {
    forall k: nat, u: nat, w: nat, rows: seq<Row> ensures !Misleads(h, k, u, w, rows) {
      assert !Misleads(h + [next], k, u, w, rows);
    }
  }

  lemma WitnessGrows(h: History, next: Option<Version>, since: nat, modified: Time, rows: seq<Row>)
    requires Witnessed(h, since, modified, rows)
    ensures Witnessed(h + [next], since, modified, rows)
  {
    var g := h + [next];
    var k: nat, v: nat :| since <= k <= v && Stamped(h, k, modified) && Shows(h, v, rows);
    assert Stamped(g, k, modified) && Shows(g, v, rows);
  }

  /** A memo hit is a version that was current during the load. */
  lemma HitIsShown(h: History, since: nat, modified: Time, rows: seq<Row>)
    requires Faithful(h) && rows != [] && Seen(h, since, modified) && Witnessed(h, 0, modified, rows)
    ensures ShownWithin(h, since, |h|, rows)
  {
    var mine: nat :| since <= mine && Stamped(h, mine, modified);
    var k: nat, v: nat :| 0 <= k <= v && Stamped(h, k, modified) && Shows(h, v, rows);
    assert !Misleads(h, k, v, mine, rows);
    assert Shows(h, if v < mine then mine else v, rows);
  }

  lemma ReadIsWitnessed(h: History, since: nat, modified: Time)
    requires Seen(h, since, modified) && Current(h).Some?
    ensures BodyWitnessed(h, since, modified, Current(h).value.body)
  {
    var k: nat :| since <= k && Stamped(h, k, modified);
    assert Holds(h, |h| - 1, Current(h).value.body);
  }

  lemma DecodedIsWitnessed(h: History, since: nat, modified: Time, body: seq<byte>)
    requires BodyWitnessed(h, since, modified, body) && DecodeBody(body).Some?
    ensures Witnessed(h, since, modified, DecodeBody(body).value)
  {
    var k: nat, v: nat :| since <= k <= v && Stamped(h, k, modified) && Holds(h, v, body);
    assert Shows(h, v, DecodeBody(body).value);
  }

  lemma WitnessedIsShown(h: History, since: nat, modified: Time, rows: seq<Row>)
    requires Witnessed(h, since, modified, rows)
    ensures ShownWithin(h, since, |h|, rows) && Witnessed(h, 0, modified, rows)
  {
    var k: nat, v: nat :| since <= k <= v && Stamped(h, k, modified) && Shows(h, v, rows);
    assert since <= v < |h| && Shows(h, v, rows);
    assert 0 <= k <= v;
  }

  lemma FileStepKeeps(s: State, path: Path, next: Option<Version>)
    requires Inv(s)
    ensures Inv(s.(files := s.files[path := HistoryOf(s, path) + [next]]))
  {
    hide LoadOk, Witnessed, Shows;
    var h := HistoryOf(s, path);
    var s' := s.(files := s.files[path := h + [next]]);
    forall q | q in s'.memo ensures Witnessed(HistoryOf(s', q), 0, s'.memo[q].0, s'.memo[q].1) {
      if q == path {
        WitnessGrows(h, next, 0, s.memo[q].0, s.memo[q].1);
      }
    }
    forall id | id in s'.loads ensures LoadOk(HistoryOf(s', s'.loads[id].path), s'.loads[id]) {
      if s.loads[id].path == path {
        GrowthKeeps(h, next, s.loads[id]);
      }
    }
  }

  lemma LoadStepKeeps(s: State, id: nat, stage: Stage)
    requires Inv(s) && id in s.loads
    requires LoadOk(HistoryOf(s, s.loads[id].path), s.loads[id].(stage := stage))
    ensures Inv(At(s, id, stage))
  {
    hide LoadOk, Witnessed;
  }

  lemma FinishKeeps(s: State, id: nat, result: Option<seq<Row>>)
    requires Inv(s) && id in s.loads
    requires result.Some? ==>
               && result.value != []
               && var h := HistoryOf(s, s.loads[id].path);
                  Faithful(h) ==> ShownWithin(h, s.loads[id].since, |h|, result.value)
    ensures Inv(Finish(s, id, result))
  {
    hide Inv, ShownWithin, Faithful;
    LoadStepKeeps(s, id, Returned(result, |HistoryOf(s, s.loads[id].path)|));
  }

  lemma BeginKeeps(s: State, id: nat, path: Path)
    requires Inv(s) && id !in s.loads
    ensures Inv(Do(s, Begin(id, path, false)))
  {
    hide Witnessed, Faithful;
  }

  lemma ForgetKeeps(s: State, path: Path)
    requires Inv(s)
    ensures Inv(s.(memo := s.memo - {path}))
  {
    hide LoadOk, Witnessed;
    SubsetSize((s.memo - {path}).Keys, s.memo.Keys);
  }

  lemma RememberKeeps(s: State, path: Path, modified: Time, rows: seq<Row>)
    requires Inv(s) && rows != [] && Witnessed(HistoryOf(s, path), 0, modified, rows)
    ensures Inv(s.(memo := Remembered(s.memo, path, modified, rows)))
  {
    hide LoadOk, Witnessed;
    RememberedSize(s.memo, path, modified, rows);
  }

  /** What the invariant says about one load and about the memo entry for its path. */
  lemma LoadFacts(s: State, id: nat)
    requires Inv(s) && id in s.loads
    ensures var load := s.loads[id];
            var h := HistoryOf(s, load.path);
            && SinceOk(h, load) && LoadOk(h, load)
            && (load.path in s.memo ==>
                  s.memo[load.path].1 != [] && Witnessed(h, 0, s.memo[load.path].0, s.memo[load.path].1))
  {
    hide LoadOk, Witnessed;
  }

  /** Every step that can happen keeps the invariant. */
  lemma {:induction false} StepKeeps(s: State, e: Event)
    requires Inv(s) && Enabled(s, e)
    ensures Inv(Do(s, e))
  {
    hide Inv, Witnessed, BodyWitnessed, ShownWithin, DecodeBody, Remembered, Faithful;
    if !e.Begin? && !e.Install? && !e.Remove? {
      LoadFacts(s, e.id);
    }
    match e
    case Begin(id, path, refresh) =>
      BeginKeeps(s, id, path);
      if refresh {
        FinishKeeps(Do(s, Begin(id, path, false)), id, None);
      }
    case Stat(id) =>
      var h := HistoryOf(s, s.loads[id].path);
      if Current(h).Some? {
        assert Stamped(h, |h| - 1, Current(h).value.modified);
        LoadStepKeeps(s, id, Statted(Current(h).value.modified));
      } else {
        FinishKeeps(s, id, None);
      }
    case Expire(id) =>
      ForgetKeeps(s, s.loads[id].path);
      FinishKeeps(s.(memo := s.memo - {s.loads[id].path}), id, None);
    case Recall(id) =>
      var load := s.loads[id];
      var rows := Recalled(s.memo, load.path, load.stage.modified);
      if rows.Some? {
        if Faithful(HistoryOf(s, load.path)) {
          HitIsShown(HistoryOf(s, load.path), load.since, load.stage.modified, rows.value);
        }
        FinishKeeps(s, id, rows);
      } else {
        LoadStepKeeps(s, id, Missed(load.stage.modified));
      }
    case Read(id) =>
      var load := s.loads[id];
      var current := Current(HistoryOf(s, load.path));
      if current.Some? {
        ReadIsWitnessed(HistoryOf(s, load.path), load.since, load.stage.modified);
        LoadStepKeeps(s, id, HaveBody(load.stage.modified, current.value.body));
      } else {
        FinishKeeps(s, id, None);
      }
    case Decode(id) =>
      var load := s.loads[id];
      var rows := DecodeBody(load.stage.body);
      if rows.Some? && rows.value != [] {
        DecodedIsWitnessed(HistoryOf(s, load.path), load.since, load.stage.modified, load.stage.body);
        LoadStepKeeps(s, id, Decoded(load.stage.modified, rows.value));
      } else {
        FinishKeeps(s, id, None);
      }
    case Remember(id) =>
      var load := s.loads[id];
      WitnessedIsShown(HistoryOf(s, load.path), load.since, load.stage.modified, load.stage.rows);
      RememberKeeps(s, load.path, load.stage.modified, load.stage.rows);
      FinishKeeps(s.(memo := Remembered(s.memo, load.path, load.stage.modified, load.stage.rows)),
                  id, Some(load.stage.rows));
    case Install(path, version) => FileStepKeeps(s, path, Some(version));
    case Remove(path) => FileStepKeeps(s, path, None);
  }

  lemma {:induction false} RunKeeps(events: seq<Event>)
    requires Replay(events).Some?
    ensures Inv(Replay(events).value)
    decreases |events|
  {
    hide Inv, Do, Enabled;
    if events == [] {
      InitialInv();
    } else {
      RunKeeps(events[..|events| - 1]);
      StepKeeps(Replay(events[..|events| - 1]).value, events[|events| - 1]);
    }
  }

  lemma InitialInv()
    ensures Inv(INITIAL)
  {
  }

  // ----- The memo and its times -----

  /** Whether, in every run that leaves `path` with the history `h`, each load from it that returns
      rows returns those of a version that was current at some moment between the load's beginning
      and its end. */
  ghost predicate LoadsAreCurrent(path: Path, h: History) {
    forall events: seq<Event>, id: nat :: LoadedFrom(events, id, path, h) ==> ReturnedCurrent(events, id, h)
  }

  predicate LoadedFrom(events: seq<Event>, id: nat, path: Path, h: History) {
    && Replay(events).Some?
    && var s := Replay(events).value;
       && HistoryOf(s, path) == h
       && id in s.loads && s.loads[id].path == path && s.loads[id].stage.Returned?
  }

  ghost predicate ReturnedCurrent(events: seq<Event>, id: nat, h: History)
    requires Replay(events).Some? && id in Replay(events).value.loads
    requires Replay(events).value.loads[id].stage.Returned?
  {
    var load := Replay(events).value.loads[id];
    load.stage.result.Some? ==>
      && load.stage.until <= |h|
      && ShownWithin(h, load.since, load.stage.until, load.stage.result.value)
  }

  lemma FaithfulLoadsAreCurrent(path: Path, h: History)
    requires Faithful(h)
    ensures LoadsAreCurrent(path, h)
  {
    hide Faithful, Replay, ShownWithin;
    forall events: seq<Event>, id: nat | LoadedFrom(events, id, path, h) ensures ReturnedCurrent(events, id, h) {
      RunKeeps(events);
    }
  }

  /** Load 0 takes the time of version `k` and the rows of version `u`. */
  function FirstLoadRun(path: Path, h: History, k: nat, u: nat): seq<Event>
    requires k <= u < |h|
  {
    Puts(path, h[..k + 1]) + [Begin(0, path, false), Stat(0), Recall(0)]
    + Puts(path, h[k + 1..u + 1]) + [Read(0), Decode(0), Remember(0)]
  }

  /** The run that shows a misleading repetition: load 1 begins on version `w` and is given what load 0
      has remembered. */
  function MisleadingRun(path: Path, h: History, k: nat, u: nat, w: nat): seq<Event>
    requires k <= u < w < |h|
  {
    FirstLoadRun(path, h, k, u) + Puts(path, h[u + 1..w + 1])
    + [Begin(1, path, false), Stat(1), Recall(1)] + Puts(path, h[w + 1..])
  }

  function Put(path: Path, entry: Option<Version>): Event {
    match entry case None => Remove(path) case Some(version) => Install(path, version)
  }

  function Puts(path: Path, h: History): seq<Event> {
    seq(|h|, i requires 0 <= i < |h| => Put(path, h[i]))
  }

  lemma ReplaySnoc(events: seq<Event>, e: Event)
    requires Replay(events).Some? && Enabled(Replay(events).value, e)
    ensures Replay(events + [e]) == Some(Do(Replay(events).value, e))
  {
    hide Do, Enabled;
    assert (events + [e])[..|events|] == events;
  }

  lemma ReplayThree(events: seq<Event>, a: Event, b: Event, c: Event)
    requires Replay(events).Some?
    requires var s := Replay(events).value;
             Enabled(s, a) && Enabled(Do(s, a), b) && Enabled(Do(Do(s, a), b), c)
    ensures Replay(events + [a, b, c]) == Some(Do(Do(Do(Replay(events).value, a), b), c))
  {
    hide Do, Enabled, Replay;
    ReplaySnoc(events, a);
    ReplaySnoc(events + [a], b);
    ReplaySnoc(events + [a] + [b], c);
    assert events + [a] + [b] + [c] == events + [a, b, c];
  }

  /** Putting versions at a path changes nothing but its history. */
  lemma {:induction false} ReplayPuts(events: seq<Event>, path: Path, more: History)
    requires Replay(events).Some?
    ensures Replay(events + Puts(path, more)).Some?
    ensures var s, t := Replay(events).value, Replay(events + Puts(path, more)).value;
            HistoryOf(t, path) == HistoryOf(s, path) + more && t.memo == s.memo && t.loads == s.loads
    decreases |more|
  {
    hide Replay;
    if more == [] {
      assert events + Puts(path, more) == events;
    } else {
      var init, last := more[..|more| - 1], more[|more| - 1];
      ReplayPuts(events, path, init);
      ReplaySnoc(events + Puts(path, init), Put(path, last));
      assert events + Puts(path, init) + [Put(path, last)] == events + Puts(path, more);
      assert init + [last] == more;
    }
  }

  lemma FirstLoadMisses(events: seq<Event>, path: Path, k: nat)
    requires Replay(events).Some?
    requires var s := Replay(events).value;
             && s.memo == map[] && s.loads == map[] && |HistoryOf(s, path)| == k + 1 && HistoryOf(s, path)[k].Some?
    ensures var next := events + [Begin(0, path, false), Stat(0), Recall(0)];
            && Replay(next).Some?
            && var s, t := Replay(events).value, Replay(next).value;
               && t.files == s.files && t.memo == map[]
               && t.loads == map[0 := Load(path, k, Missed(HistoryOf(s, path)[k].value.modified))]
  {
    hide Replay;
    var h := HistoryOf(Replay(events).value, path);
    ReplayThree(events, Begin(0, path, false), Stat(0), Recall(0));
  }

  lemma FirstLoadRemembers(events: seq<Event>, path: Path, since: nat, modified: Time, rows: seq<Row>)
    requires Replay(events).Some? && rows != []
    requires var s := Replay(events).value;
             && s.memo == map[] && s.loads == map[0 := Load(path, since, Missed(modified))]
             && HistoryOf(s, path) != [] && Shows(HistoryOf(s, path), |HistoryOf(s, path)| - 1, rows)
    ensures var next := events + [Read(0), Decode(0), Remember(0)];
            && Replay(next).Some?
            && var s, t := Replay(events).value, Replay(next).value;
               && t.files == s.files && t.memo == map[path := (modified, rows)]
               && t.loads.Keys == {0}
  {
    hide Replay, DecodeBody;
    ReplayThree(events, Read(0), Decode(0), Remember(0));
  }

  lemma SecondLoadHits(events: seq<Event>, path: Path, rows: seq<Row>)
    requires Replay(events).Some?
    requires var s := Replay(events).value;
             && s.loads.Keys == {0} && HistoryOf(s, path) != [] && Current(HistoryOf(s, path)).Some?
             && s.memo == map[path := (Current(HistoryOf(s, path)).value.modified, rows)]
    ensures var next := events + [Begin(1, path, false), Stat(1), Recall(1)];
            && Replay(next).Some?
            && var s, t := Replay(events).value, Replay(next).value;
               && t.files == s.files && 1 in t.loads
               && t.loads[1] == Load(path, |HistoryOf(s, path)| - 1, Returned(Some(rows), |HistoryOf(s, path)|))
  {
    hide Replay;
    ReplayThree(events, Begin(1, path, false), Stat(1), Recall(1));
  }

  lemma FirstLoadRunRemembers(path: Path, h: History, k: nat, u: nat, rows: seq<Row>)
    requires k <= u < |h| && h[k].Some? && Shows(h, u, rows) && rows != []
    ensures var events := FirstLoadRun(path, h, k, u);
            && Replay(events).Some?
            && var s := Replay(events).value;
               && HistoryOf(s, path) == h[..u + 1]
               && s.memo == map[path := (h[k].value.modified, rows)] && s.loads.Keys == {0}
  {
    hide Replay, Puts, DecodeBody;
    var e1 := Puts(path, h[..k + 1]);
    ReplayNothing();
    ReplayPuts([], path, h[..k + 1]);
    assert [] + h[..k + 1] == h[..k + 1] && [] + e1 == e1;
    FirstLoadMisses(e1, path, k);
    var e2 := e1 + [Begin(0, path, false), Stat(0), Recall(0)];
    ReplayPuts(e2, path, h[k + 1..u + 1]);
    assert h[..k + 1] + h[k + 1..u + 1] == h[..u + 1];
    FirstLoadRemembers(e2 + Puts(path, h[k + 1..u + 1]), path, k, h[k].value.modified, rows);
  }

  /** In that run, load 1 begins when version `w` is current, ends before the next, and returns rows
      that version does not have. */
  lemma MisleadingRunIsStale(path: Path, h: History, k: nat, u: nat, w: nat, rows: seq<Row>)
    requires Misleads(h, k, u, w, rows)
    ensures var events := MisleadingRun(path, h, k, u, w);
            && Replay(events).Some?
            && var s := Replay(events).value;
               && HistoryOf(s, path) == h
               && 1 in s.loads && s.loads[1] == Load(path, w, Returned(Some(rows), w + 1))
    ensures !ShownWithin(h, w, w + 1, rows)
  {
    hide Replay, Puts, DecodeBody, FirstLoadRun;
    var e4 := FirstLoadRun(path, h, k, u);
    FirstLoadRunRemembers(path, h, k, u, rows);
    ReplayPuts(e4, path, h[u + 1..w + 1]);
    assert h[..u + 1] + h[u + 1..w + 1] == h[..w + 1];
    var e5 := e4 + Puts(path, h[u + 1..w + 1]);
    SecondLoadHits(e5, path, rows);
    ReplayPuts(e5 + [Begin(1, path, false), Stat(1), Recall(1)], path, h[w + 1..]);
    assert h[..w + 1] + h[w + 1..] == h;
  }

  lemma ReplayNothing()
    ensures Replay([]) == Some(INITIAL)
  {
  }

  // ----- Main results -----

  /** Loads from a path are linearizable, however stores, removals and other loads interleave with
      them, exactly when the path's history is faithful: a modification time comes back only with the
      rows the file has had in between. */
  lemma {:induction false} LoadsAreLinearizable(path: Path, h: History)
    ensures LoadsAreCurrent(path, h) <==> Faithful(h)
  {
    hide Replay, MisleadingRun;
    if Faithful(h) {
      FaithfulLoadsAreCurrent(path, h);
    } else {
      var k: nat, u: nat, w: nat, rows: seq<Row> :| Misleads(h, k, u, w, rows);
      MisleadingRunIsStale(path, h, k, u, w, rows);
      var events := MisleadingRun(path, h, k, u, w);
      assert LoadedFrom(events, 1, path, h) && !ReturnedCurrent(events, 1, h);
    }
  }

  /** A file system that gives each version of a file a time of its own keeps histories faithful. */
  lemma DistinctTimesAreFaithful(h: History)
    requires forall v: nat, w: nat | v < w < |h| && h[v].Some? && h[w].Some? ::
               h[v].value.modified != h[w].value.modified
    ensures Faithful(h)
  {
  }

  /** So does one on which only unchanged rows are stored again within a tick. */
  lemma EqualRowsAreFaithful(h: History, rows: seq<Row>)
    requires forall v: nat | v < |h| && h[v].Some? :: Shows(h, v, rows)
    ensures Faithful(h)
  {
    hide DecodeBody;
    forall k: nat, u: nat, w: nat, others: seq<Row> ensures !Misleads(h, k, u, w, others) {
      if u < w < |h| && Shows(h, u, others) {
        assert Shows(h, u, rows) && others == rows;
      }
    }
  }

  /** The memo never outgrows its limit. */
  lemma {:induction false} MemoIsBounded(events: seq<Event>)
    requires Replay(events).Some?
    ensures |Replay(events).value.memo| <= MEMO_MAX_ENTRIES
  {
    RunKeeps(events);
  }

  // ----- Two stores within one tick -----

  function OneRow(port: u16): seq<Row> {
    [Row(Ipv4(10, 0, 0, 1), port, None)]
  }

  /** Two different lists, stored within one tick of the file system's clock. */
  function SameTick(): History {
    [Some(Version(7, EncodeBody(OneRow(80)))), Some(Version(7, EncodeBody(OneRow(81))))]
  }

  /** The second load of the run is given the first file's rows, which were gone before it began. */
  lemma StaleWhenTimesRepeat(path: Path)
    ensures Misleads(SameTick(), 0, 0, 1, OneRow(80))
    ensures !LoadsAreCurrent(path, SameTick())
  {
    hide EncodeBody, DecodeBody, LoadsAreCurrent;
    RoundTrip(OneRow(80));
    RoundTrip(OneRow(81));
    assert OneRow(80)[0] != OneRow(81)[0];
    LoadsAreLinearizable(path, SameTick());
  }

  // ----- Single loads -----

  lemma ReplayPrefix(events: seq<Event>)
    requires events != [] && Replay(events).Some?
    ensures Replay(events[..|events| - 1]).Some?
    ensures var s, e := Replay(events[..|events| - 1]).value, events[|events| - 1];
            Enabled(s, e) && Replay(events).value == Do(s, e)
  {
  }

  lemma StepLeavesOthers(s: State, e: Event, id: nat)
    requires Enabled(s, e) && id in s.loads && s.loads[id].stage.Returned?
    ensures id in Do(s, e).loads && Do(s, e).loads[id] == s.loads[id]
  {
  }

  /** A load that is to refresh the cache returns no rows, whatever the run, and touches neither file nor
      memo. */
  lemma {:induction false} RefreshReturnsNothing(events: seq<Event>, i: nat)
    requires Replay(events).Some? && i < |events| && events[i].Begin? && events[i].refresh
    ensures var s := Replay(events).value;
            && events[i].id in s.loads
            && s.loads[events[i].id].stage.Returned? && s.loads[events[i].id].stage.result == None
    ensures i == |events| - 1 ==>
              var before, s := Replay(events[..i]), Replay(events).value;
              before.Some? && s.files == before.value.files && s.memo == before.value.memo
    decreases |events|
  {
    hide Replay;
    ReplayPrefix(events);
    var init, e := events[..|events| - 1], events[|events| - 1];
    if i < |init| {
      RefreshReturnsNothing(init, i);
      hide Do, Enabled;
      StepLeavesOthers(Replay(init).value, e, events[i].id);
    }
  }

  /** A load that finds its file too old returns no rows and forgets what is remembered of it. */
  lemma ExpiredReturnsNothing(s: State, id: nat)
    requires Enabled(s, Expire(id))
    ensures var t := Do(s, Expire(id));
            && t.loads[id].stage.Returned? && t.loads[id].stage.result == None
            && s.loads[id].path !in t.memo
            && (forall other :: other in s.memo && other != s.loads[id].path ==>
                  other in t.memo && t.memo[other] == s.memo[other])
  {
  }

  /** No load returns an empty list. */
  lemma {:induction false} LoadsReturnRows(events: seq<Event>, id: nat)
    requires Replay(events).Some?
    requires var s := Replay(events).value;
             id in s.loads && s.loads[id].stage.Returned? && s.loads[id].stage.result.Some?
    ensures Replay(events).value.loads[id].stage.result.value != []
  {
    RunKeeps(events);
  }

  /** Nothing is there that a load could return: no file, or one that holds no rows. */
  predicate NothingThere(current: Option<Version>) {
    current.None? || DecodeBody(current.value.body).None? || DecodeBody(current.value.body) == Some([])
  }

  /** A load that nothing interferes with, of a file that is not remembered under its time, returns the
      file's rows and remembers them; if there are none, it returns nothing and remembers nothing. */
  lemma QuietLoad(events: seq<Event>, id: nat, path: Path)
    requires Replay(events).Some?
    requires var s := Replay(events).value;
             && id !in s.loads
             && (Current(HistoryOf(s, path)).Some? ==>
                   Recalled(s.memo, path, Current(HistoryOf(s, path)).value.modified).None?)
    ensures var s := Replay(events).value;
            var current := Current(HistoryOf(s, path));
            && (!NothingThere(current) ==>
                  var rows := DecodeBody(current.value.body).value;
                  var steps := [Begin(id, path, false), Stat(id), Recall(id)] + [Read(id), Decode(id), Remember(id)];
                  && Replay(events + steps).Some?
                  && var t := Replay(events + steps).value;
                     && t.files == s.files && id in t.loads
                     && t.loads[id].stage == Returned(Some(rows), |HistoryOf(s, path)|)
                     && t.memo == Remembered(s.memo, path, current.value.modified, rows))
            && (current.Some? && NothingThere(current) ==>
                  var steps := [Begin(id, path, false), Stat(id), Recall(id)] + [Read(id), Decode(id)];
                  && Replay(events + steps).Some?
                  && var t := Replay(events + steps).value;
                     && t.files == s.files && t.memo == s.memo && id in t.loads
                     && t.loads[id].stage == Returned(None, |HistoryOf(s, path)|))
            && (current.None? ==>
                  var steps := [Begin(id, path, false), Stat(id)];
                  && Replay(events + steps).Some?
                  && var t := Replay(events + steps).value;
                     && t.files == s.files && t.memo == s.memo && id in t.loads
                     && t.loads[id].stage == Returned(None, |HistoryOf(s, path)|))
  {
    hide Replay, DecodeBody, Recalled, Remembered;
    var s := Replay(events).value;
    var current := Current(HistoryOf(s, path));
    if current.None? {
      ReplaySnoc(events, Begin(id, path, false));
      ReplaySnoc(events + [Begin(id, path, false)], Stat(id));
      assert events + [Begin(id, path, false)] + [Stat(id)] == events + [Begin(id, path, false), Stat(id)];
    } else {
      var missed := events + [Begin(id, path, false), Stat(id), Recall(id)];
      ReplayThree(events, Begin(id, path, false), Stat(id), Recall(id));
      if NothingThere(current) {
        ReplaySnoc(missed, Read(id));
        ReplaySnoc(missed + [Read(id)], Decode(id));
        Assoc(missed, [Read(id)], [Decode(id)]);
        Assoc(events, [Begin(id, path, false), Stat(id), Recall(id)], [Read(id), Decode(id)]);
        assert [Read(id)] + [Decode(id)] == [Read(id), Decode(id)];
      } else {
        ReplayThree(missed, Read(id), Decode(id), Remember(id));
        Assoc(events, [Begin(id, path, false), Stat(id), Recall(id)], [Read(id), Decode(id), Remember(id)]);
      }
    }
  }

  /** A load of a file that is remembered under its time returns what is remembered. */
  lemma RememberedLoad(events: seq<Event>, id: nat, path: Path, rows: seq<Row>)
    requires Replay(events).Some?
    requires var s := Replay(events).value;
             && id !in s.loads && Current(HistoryOf(s, path)).Some?
             && Recalled(s.memo, path, Current(HistoryOf(s, path)).value.modified) == Some(rows)
    ensures var s, next := Replay(events).value, events + [Begin(id, path, false), Stat(id), Recall(id)];
            && Replay(next).Some?
            && var t := Replay(next).value;
               && t.files == s.files && t.memo == s.memo && id in t.loads
               && t.loads[id].stage == Returned(Some(rows), |HistoryOf(s, path)|)
  {
    hide Replay, Recalled;
    ReplayThree(events, Begin(id, path, false), Stat(id), Recall(id));
  }

  /** What is remembered is recalled under its time and no other. What else is remembered stays, unless
      there are 256 paths already; then all of it goes. */
  lemma RememberThenRecall(table: Table, path: Path, modified: Time, rows: seq<Row>, other: Path, time: Time)
    ensures Recalled(Remembered(table, path, modified, rows), path, time)
         == if time == modified then Some(rows) else None
    ensures other != path ==>
              Recalled(Remembered(table, path, modified, rows), other, time)
              == if |table| < 256 then Recalled(table, other, time) else None
  {
  }
}
