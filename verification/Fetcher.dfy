/** Acceptance of gathered candidates: the bounded deduplication window, `src/fetcher/dedup.rs`, and
    the fetcher that consumes a channel behind it with a one-slot lookahead, `src/fetcher/mod.rs`. */
module Fetcher {
  import opened Wrappers

  /** Address, port and hash of the advertised protocols. */
  type Key = (Ipv4, u16, nat)

  // ----- The window -----

  function Last<T>(s: seq<T>, n: nat): (r: seq<T>)
    ensures |r| <= n && (|s| <= n ==> r == s)
  {
    if |s| <= n then s else s[|s| - n..]
  }

  /** Number of keys remembered: even a table of capacity 0 remembers one. */
  function Window(capacity: nat): (n: nat)
    ensures n >= 1
  {
    if capacity == 0 then 1 else capacity
  }

  /** The keys that were new when they came, in order. */
  function NewKeys(keys: seq<Key>, window: nat): seq<Key> {
    if keys == [] then []
    else
      var earlier, key := NewKeys(keys[..|keys| - 1], window), keys[|keys| - 1];
      if key in Last(earlier, window) then earlier else earlier + [key]
  }

  predicate Distinct(s: seq<Key>) {
    forall i, j :: 0 <= i < j < |s| ==> s[i] != s[j]
  }

  function Elements(s: seq<Key>): set<Key> {
    set k | k in s
  }

  class DedupTable {
    var seen: set<Key>
    var order: seq<Key>
    const capacity: nat
    /** Every key `Insert` was called with. */
    ghost var asked: seq<Key>

    ghost predicate Valid()
      reads this
    {
      && order == Last(NewKeys(asked, Window(capacity)), Window(capacity))
      && seen == Elements(order)
      && Distinct(order)
    }

    constructor (capacity: nat)
      ensures Valid() && this.capacity == capacity && asked == []
    {
      this.capacity := capacity;
      seen := {};
      order := [];
      asked := [];
    }

    /** True exactly when the key is not among the last keys that were new. */
    method Insert(key: Key) returns (isNew: bool)
      requires Valid()
      modifies this
      ensures Valid() && asked == old(asked) + [key]
      ensures isNew <==> key !in Last(NewKeys(old(asked), Window(capacity)), Window(capacity))
    {
      hide Last, NewKeys, Elements, Distinct;
      ghost var news := NewKeys(asked, Window(capacity));
      NewKeysSnoc(asked, key, Window(capacity));
      asked := asked + [key];
      InElements(order, key);
      if key in seen {
        return false;
      }
      InsertStep(order, key, capacity);
      WindowMoves(news, key, Window(capacity));
      seen := seen + {key};
      if |seen| > capacity {
        if order != [] {
          var oldest := order[0];
          order := order[1..];
          seen := seen - {oldest};
        }
      }
      order := order + [key];
      return true;
    }
  }

  lemma InElements(s: seq<Key>, key: Key)
    ensures key in s <==> key in Elements(s)
  {
  }

  /** Adding a key to the table, and dropping the oldest when it grew too large. */
  lemma InsertStep(order: seq<Key>, key: Key, capacity: nat)
    requires Distinct(order) && |order| <= Window(capacity) && key !in order
    ensures |Elements(order) + {key}| == |order| + 1
    ensures var drop := |order| + 1 > capacity && order != [];
            && (drop <==> |order| >= Window(capacity))
            && Distinct((if drop then order[1..] else order) + [key])
            && Elements((if drop then order[1..] else order) + [key])
               == (if drop then Elements(order) + {key} - {order[0]} else Elements(order) + {key})
  {
    DistinctSize(order);
    var drop := |order| + 1 > capacity && order != [];
    var kept := if drop then order[1..] else order;
    assert forall k :: k in kept + [key] <==> k in kept || k == key;
    if drop {
      assert forall k :: k in order <==> k == order[0] || k in kept;
    }
  }

  lemma NewKeysSnoc(keys: seq<Key>, key: Key, window: nat)
    ensures NewKeys(keys + [key], window)
         == (var earlier := NewKeys(keys, window);
             if key in Last(earlier, window) then earlier else earlier + [key])
  {
    assert (keys + [key])[..|keys|] == keys;
  }

  lemma {:induction false} DistinctSize(s: seq<Key>)
    requires Distinct(s)
    ensures |Elements(s)| == |s|
  {
    if s != [] {
      DistinctSize(s[1..]);
      assert Elements(s) == Elements(s[1..]) + {s[0]};
    }
  }

  lemma WindowMoves(news: seq<Key>, key: Key, window: nat)
    requires window >= 1
    ensures var before := Last(news, window);
            Last(news + [key], window) == (if |before| >= window then before[1..] else before) + [key]
  {
  }

  // ----- Which candidates are accepted -----

  /** What the location database says about an address; `record` stands for everything but the country. */
  datatype Geo = Geo(country: Option<string>, record: string)

  /** A candidate comes with the location its provider gave it. */
  datatype Candidate = Candidate(key: Key, geo: Geo, payload: string)

  /** `lookup` is the location database, if there is one. */
  datatype Config = Config(enforceUniqueIp: bool, countries: set<string>, excluded: set<string>,
                           lookup: Option<Ipv4 -> Geo>, threshold: Option<nat>)

  predicate CountryPasses(config: Config, c: Candidate) {
    match config.lookup
    case None => true
    case Some(lookup) =>
      var country := lookup(c.key.0).country;
      && (config.countries != {} ==> country.Some? && country.value in config.countries)
      && (config.excluded != {} ==> !(country.Some? && country.value in config.excluded))
  }

  /** A candidate as it is handed out, with the location the database gives. */
  function Located(config: Config, c: Candidate): Candidate {
    if config.lookup.Some? then c.(geo := (config.lookup.value)(c.key.0)) else c
  }

  function Keys(candidates: seq<Candidate>): seq<Key> {
    seq(|candidates|, i requires 0 <= i < |candidates| => candidates[i].key)
  }

  predicate Accepts(config: Config, window: nat, earlier: seq<Candidate>, c: Candidate) {
    && (config.enforceUniqueIp ==> c.key !in Last(NewKeys(Keys(earlier), window), window))
    && CountryPasses(config, c)
  }

  /** The candidates of a stream that are accepted, in order, each with its location. */
  function Accepted(config: Config, window: nat, stream: seq<Candidate>): seq<Candidate> {
    if stream == [] then []
    else
      var earlier, c := stream[..|stream| - 1], stream[|stream| - 1];
      Accepted(config, window, earlier) + (if Accepts(config, window, earlier, c) then [Located(config, c)] else [])
  }

  lemma AcceptedSnoc(config: Config, window: nat, stream: seq<Candidate>, c: Candidate)
    ensures Accepted(config, window, stream + [c])
         == Accepted(config, window, stream) + (if Accepts(config, window, stream, c) then [Located(config, c)] else [])
    ensures Keys(stream + [c]) == Keys(stream) + [c.key]
  {
    assert (stream + [c])[..|stream|] == stream;
  }

  // ----- The fetcher -----

  datatype Poll = Ready(item: Option<Candidate>) | Pending

  class ProxyFetcher {
    const config: Config
    const uniqueIps: DedupTable
    /** Sent on the channel and not yet received. */
    var queue: seq<Candidate>
    var closed: bool
    var prefetched: Option<Candidate>
    var counter: nat
    var accepted: nat
    var stopSignaled: bool
    var stopsSent: nat
    /** Everything ever sent; what went through `Accept`; what was handed out. */
    ghost var sent: seq<Candidate>
    ghost var consumed: seq<Candidate>
    ghost var yielded: seq<Candidate>

    ghost function Slot(): seq<Candidate>
      reads this
    {
      if prefetched.Some? then [prefetched.value] else []
    }

    ghost predicate Valid()
      reads this, uniqueIps
    {
      && uniqueIps.Valid()
      && (config.enforceUniqueIp ==> uniqueIps.asked == Keys(consumed))
      && sent == consumed + Slot() + queue
      && yielded == Accepted(config, Window(uniqueIps.capacity), consumed)
      && counter == accepted == |yielded|
      && (stopSignaled <==> config.threshold.Some? && yielded != [] && |yielded| >= config.threshold.value)
      && stopsSent == (if stopSignaled then 1 else 0)
    }

    constructor (config: Config, capacity: nat)
      ensures Valid() && fresh(uniqueIps) && this.config == config && uniqueIps.capacity == capacity
      ensures sent == consumed == yielded == [] && !closed
    {
      this.config := config;
      uniqueIps := new DedupTable(capacity);
      queue := [];
      closed := false;
      prefetched := None;
      counter := 0;
      accepted := 0;
      stopSignaled := false;
      stopsSent := 0;
      sent := [];
      consumed := [];
      yielded := [];
    }

    /** A provider sends a candidate. */
    method Send(c: Candidate)
      requires Valid() && !closed
      modifies this`queue, this`sent
      ensures Valid() && sent == old(sent) + [c] && queue == old(queue) + [c]
    {
      hide Accepted, Last, NewKeys, Keys, Elements, Distinct;
      Assoc(consumed + Slot(), queue, [c]);
      queue := queue + [c];
      sent := sent + [c];
    }

    /** The last provider finishes. */
    method Close()
      requires Valid()
      modifies this`closed
      ensures Valid() && closed
    {
      closed := true;
    }

    /** `accept_proxy` and the fallback threshold of `accept`. */
    method Accept(c: Candidate) returns (result: Option<Candidate>)
      requires uniqueIps.Valid() && (config.enforceUniqueIp ==> uniqueIps.asked == Keys(consumed))
      requires yielded == Accepted(config, Window(uniqueIps.capacity), consumed)
      requires counter == accepted == |yielded|
      requires stopSignaled <==> config.threshold.Some? && yielded != [] && |yielded| >= config.threshold.value
      requires stopsSent == (if stopSignaled then 1 else 0)
      requires sent == consumed + [c] + Slot() + queue
      modifies uniqueIps, this`counter, this`accepted, this`stopSignaled, this`stopsSent, this`consumed, this`yielded
      ensures Valid() && consumed == old(consumed) + [c]
      ensures result == if Accepts(config, Window(uniqueIps.capacity), old(consumed), c)
                        then Some(Located(config, c)) else None
      ensures yielded == if result.Some? then old(yielded) + [result.value] else old(yielded)
    {
      hide Accepted, Last, NewKeys, Keys, Elements, Distinct;
      AcceptedSnoc(config, Window(uniqueIps.capacity), consumed, c);
      ghost var earlier := consumed;
      consumed := consumed + [c];
      assert sent == consumed + Slot() + queue;
      if config.enforceUniqueIp {
        var isNew := uniqueIps.Insert(c.key);
        if !isNew {
          return None;
        }
      }
      var proxy := c;
      if config.lookup.Some? {
        proxy := proxy.(geo := (config.lookup.value)(c.key.0));
        var country := proxy.geo.country;
        if config.countries != {} && !(country.Some? && country.value in config.countries) {
          return None;
        }
        if config.excluded != {} && country.Some? && country.value in config.excluded {
          return None;
        }
      }
      counter := counter + 1;
      accepted := accepted + 1;
      yielded := yielded + [proxy];
      if config.threshold.Some? {
        if accepted >= config.threshold.value && !stopSignaled {
          stopSignaled := true;
          stopsSent := stopsSent + 1;
        }
      }
      return Some(proxy);
    }

    /** Fills the lookahead slot from the channel, if something is waiting there. */
    method CheckDrain()
      requires Valid() && prefetched.None?
      modifies this`queue, this`prefetched
      ensures Valid() && Slot() + queue == old(queue)
    {
      hide Accepted, Last, NewKeys, Keys, Elements, Distinct;
      if queue != [] {
        ghost var before := queue;
        prefetched := Some(queue[0]);
        queue := queue[1..];
        assert [before[0]] + before[1..] == before;
        assert consumed + [] == consumed;
        Assoc(consumed, [before[0]], before[1..]);
      } else {
        assert Slot() + queue == queue;
      }
    }

    /** Takes the next candidate: the one in the slot, or the next in the channel. */
    method TakeNext() returns (next: Option<Candidate>)
      requires Valid()
      modifies this`queue, this`prefetched
      ensures next.None? ==> Slot() == queue == [] && Valid()
      ensures next.Some? ==>
                && prefetched.None? && sent == consumed + [next.value] + Slot() + queue
                && |queue| + |Slot()| < old(|queue| + |Slot()|)
    {
      hide Accepted, Last, NewKeys, Keys, Elements, Distinct;
      ghost var before := queue;
      assert consumed + [] == consumed;
      if prefetched.Some? {
        next := prefetched;
        prefetched := None;
        assert consumed + [next.value] + [] == consumed + [next.value];
      } else if queue != [] {
        next := Some(queue[0]);
        queue := queue[1..];
        Assoc(consumed, [before[0]], before[1..]);
        assert [before[0]] + before[1..] == before;
        assert consumed + [next.value] + [] == consumed + [next.value];
      } else {
        next := None;
      }
    }

    /** `poll_next`: skips what is not accepted. It is only ready without an item, or pending, when
        everything sent has been judged. */
    method PollNext() returns (poll: Poll)
      requires Valid()
      modifies this`queue, this`prefetched, uniqueIps, this`counter, this`accepted, this`stopSignaled,
               this`stopsSent, this`consumed, this`yielded
      ensures Valid()
      ensures match poll
              case Ready(Some(c)) => yielded == old(yielded) + [c]
              case Ready(None) =>
                closed && yielded == old(yielded) == Accepted(config, Window(uniqueIps.capacity), sent)
              case Pending =>
                !closed && yielded == old(yielded) == Accepted(config, Window(uniqueIps.capacity), sent)
    {
      hide Accepted, Last, NewKeys, Keys, Elements, Distinct;
      while true
        invariant Valid() && yielded == old(yielded)
        decreases |queue| + |Slot()|
      {
        var next := TakeNext();
        if next.None? {
          assert sent == consumed;
          return if closed then Ready(None) else Pending;
        }
        var result := Accept(next.value);
        if result.Some? {
          CheckDrain();
          return Ready(result);
        }
      }
    }

    /** Takes the next candidate, waiting for it if there is none. `arrivals` is what providers are
        still going to send before the last of them finishes. */
    method TakeOrWait(arrivals: seq<Candidate>) returns (next: Option<Candidate>, rest: seq<Candidate>)
      requires Valid() && (closed ==> arrivals == [])
      modifies this`queue, this`closed, this`sent, this`prefetched
      ensures sent + rest == old(sent) + arrivals
      ensures match next
              case None => Valid() && closed && Slot() == queue == rest == []
              case Some(c) =>
                && closed == old(closed) && prefetched.None? && sent == consumed + [c] + Slot() + queue
                && |rest| + |queue| < |arrivals| + old(|queue| + |Slot()|)
                && (rest == arrivals || (queue == [] && |rest| < |arrivals|))
    {
      hide Accepted, Last, NewKeys, Keys, Elements, Distinct;
      rest := arrivals;
      next := TakeNext();
      if next.None? && arrivals == [] {
        Close();
      } else if next.None? {
        Send(arrivals[0]);
        rest := arrivals[1..];
        assert [arrivals[0]] + rest == arrivals;
        Assoc(old(sent), [arrivals[0]], rest);
        next := TakeNext();
      }
    }

    /** `get_one`: skips what is not accepted, and waits for what is still to come. It ends without an
        item only when everything that was ever sent has been judged, and takes no more than it has to:
        once it has waited, nothing that has arrived is left unjudged. */
    method GetOne(arrivals: seq<Candidate>) returns (result: Option<Candidate>, rest: seq<Candidate>)
      requires Valid() && (closed ==> arrivals == [])
      modifies this`queue, this`closed, this`sent, this`prefetched, uniqueIps, this`counter, this`accepted,
               this`stopSignaled, this`stopsSent, this`consumed, this`yielded
      ensures Valid() && sent + rest == old(sent) + arrivals
      ensures match result
              case Some(c) =>
                && closed == old(closed) && yielded == old(yielded) + [c]
                && (rest == arrivals || sent == consumed)
              case None =>
                closed && rest == [] && yielded == old(yielded) == Accepted(config, Window(uniqueIps.capacity), sent)
    {
      hide Accepted, Last, NewKeys, Keys, Elements, Distinct;
      rest := arrivals;
      while true
        invariant Valid() && yielded == old(yielded) && closed == old(closed)
        invariant sent + rest == old(sent) + arrivals && (closed ==> rest == [])
        invariant rest == arrivals || Slot() == queue == []
        decreases |rest| + |queue| + |Slot()|
      {
        var next;
        next, rest := TakeOrWait(rest);
        if next.None? {
          assert sent == consumed;
          return None, rest;
        }
        result := Accept(next.value);
        if result.Some? {
          CheckDrain();
          return;
        }
      }
    }
  }

  // ----- When the window is large enough -----

  /** The candidates whose key did not occur before. */
  function FirstOnly(config: Config, stream: seq<Candidate>): seq<Candidate> {
    if stream == [] then []
    else
      var earlier, c := stream[..|stream| - 1], stream[|stream| - 1];
      FirstOnly(config, earlier)
      + (if c.key !in Keys(earlier) && CountryPasses(config, c) then [Located(config, c)] else [])
  }

  lemma {:induction false} NewKeysWithinWindow(keys: seq<Key>, window: nat)
    requires |Elements(keys)| <= window
    ensures var news := NewKeys(keys, window);
            Distinct(news) && Elements(news) == Elements(keys) && |news| <= window
  {
    if keys != [] {
      var earlier, key := keys[..|keys| - 1], keys[|keys| - 1];
      assert Elements(keys) == Elements(earlier) + {key};
      assert Elements(earlier) <= Elements(keys);
      SubsetSize(Elements(earlier), Elements(keys));
      NewKeysWithinWindow(earlier, window);
      var before := NewKeys(earlier, window);
      if key !in before {
        assert Elements(before + [key]) == Elements(before) + {key};
        DistinctSize(before + [key]);
      } else {
        assert key in Elements(before);
      }
    }
  }

  /** As long as the keys of a stream fit the window, each is accepted once, at its first occurrence. */
  lemma {:induction false} EachKeyOnce(config: Config, window: nat, stream: seq<Candidate>)
    requires config.enforceUniqueIp && |Elements(Keys(stream))| <= window
    ensures Accepted(config, window, stream) == FirstOnly(config, stream)
  {
    hide Keys, NewKeys, Accepted, Elements, Distinct, Last;
    if stream == [] {
      NothingAccepted(config, window);
    } else {
      var earlier, c := stream[..|stream| - 1], stream[|stream| - 1];
      AcceptedSnoc(config, window, earlier, c);
      assert earlier + [c] == stream;
      ElementsGrow(Keys(earlier), c.key);
      SubsetSize(Elements(Keys(earlier)), Elements(Keys(stream)));
      EachKeyOnce(config, window, earlier);
      NewKeysWithinWindow(Keys(earlier), window);
      InElements(NewKeys(Keys(earlier), window), c.key);
      InElements(Keys(earlier), c.key);
    }
  }

  lemma NothingAccepted(config: Config, window: nat)
    ensures Accepted(config, window, []) == []
  {
  }

  lemma ElementsGrow(keys: seq<Key>, key: Key)
    ensures Elements(keys) <= Elements(keys + [key])
  {
  }

  lemma LastContains(s: seq<Key>, window: nat, i: nat)
    requires i < |s| && |s| - i <= window
    ensures s[i] in Last(s, window)
  {
    var last := Last(s, window);
    assert s[i] == last[i - (|s| - |last|)];
  }

  /** No key is new again while the window still holds it: between two entries of the same key lie
      at least as many others as the window holds. */
  lemma {:induction false} NewAgain(keys: seq<Key>, window: nat, i: nat, j: nat)
    requires i < j < |NewKeys(keys, window)| && NewKeys(keys, window)[i] == NewKeys(keys, window)[j]
    ensures j - i > window
    decreases |keys|
  {
    var earlier := NewKeys(keys[..|keys| - 1], window);
    if j < |earlier| {
      NewAgain(keys[..|keys| - 1], window, i, j);
    } else if j - i <= window {
      LastContains(earlier, window, i);
    }
  }

  /** A key is new exactly when none of the last keys that were new is the same, as many as the table
      holds: its capacity, or one. */
  lemma NewExactly(keys: seq<Key>, key: Key, capacity: nat)
    ensures var window := if capacity == 0 then 1 else capacity;
            var news := NewKeys(keys, Window(capacity));
            NewKeys(keys + [key], Window(capacity))
            == if exists i :: 0 <= i < |news| && i >= |news| - window && news[i] == key then news else news + [key]
  {
    hide NewKeys, Last;
    NewKeysSnoc(keys, key, Window(capacity));
    LastMembers(NewKeys(keys, Window(capacity)), Window(capacity), key);
  }

  lemma LastMembers(s: seq<Key>, n: nat, key: Key)
    requires n >= 1
    ensures key in Last(s, n) <==> exists i :: 0 <= i < |s| && i >= |s| - n && s[i] == key
  {
    var last := Last(s, n);
    if key in last {
      var i :| 0 <= i < |last| && last[i] == key;
      assert s[i + (|s| - |last|)] == key;
    }
    if i :| 0 <= i < |s| && i >= |s| - n && s[i] == key {
      LastContains(s, n, i);
    }
  }

  // ----- Which countries come out -----

  /** Everything that is handed out came from the stream and carries the location the database gives for
      its address, if there is a database; then its country is one of those listed, if any are, and is
      not excluded. */
  lemma {:induction false} CountriesHandedOut(config: Config, window: nat, stream: seq<Candidate>, i: nat)
    requires i < |Accepted(config, window, stream)|
    ensures var item := Accepted(config, window, stream)[i];
            && (exists j :: 0 <= j < |stream| && item == stream[j].(geo := item.geo))
            && (config.lookup.None? ==> item in stream)
            && (config.lookup.Some? ==>
                  && item.geo == (config.lookup.value)(item.key.0)
                  && (config.countries != {} ==> item.geo.country.Some? && item.geo.country.value in config.countries)
                  && (item.geo.country.Some? ==> item.geo.country.value !in config.excluded))
  {
    hide NewKeys, Last, Keys;
    var earlier, c := stream[..|stream| - 1], stream[|stream| - 1];
    if i < |Accepted(config, window, earlier)| {
      CountriesHandedOut(config, window, earlier, i);
      var item := Accepted(config, window, stream)[i];
      assert item == Accepted(config, window, earlier)[i];
      var j :| 0 <= j < |earlier| && item == earlier[j].(geo := item.geo);
      assert earlier[j] == stream[j];
    } else {
      assert Accepted(config, window, stream)[i] == Located(config, c) == c.(geo := Located(config, c).geo);
      assert c == stream[|stream| - 1];
    }
  }

  /** The country of an address, by the database. */
  function CountryOf(config: Config, c: Candidate): Option<string>
    requires config.lookup.Some?
  {
    (config.lookup.value)(c.key.0).country
  }

  /** Conversely, a candidate that is new in its place, and whose country is listed, if any are, and not
      excluded, is handed out. Without a database no country stands in its way. */
  lemma {:induction false} FittingCandidateComesOut(config: Config, window: nat, stream: seq<Candidate>, j: nat)
    requires j < |stream|
    requires config.enforceUniqueIp ==> stream[j].key !in Last(NewKeys(Keys(stream[..j]), window), window)
    requires config.lookup.Some? && config.countries != {} ==>
               CountryOf(config, stream[j]).Some? && CountryOf(config, stream[j]).value in config.countries
    requires config.lookup.Some? && CountryOf(config, stream[j]).Some? ==>
               CountryOf(config, stream[j]).value !in config.excluded
    ensures exists item :: item in Accepted(config, window, stream)
                           && item == stream[j].(geo := if config.lookup.Some? then item.geo else stream[j].geo)
  {
    hide NewKeys, Last, Keys;
    var earlier, c := stream[..|stream| - 1], stream[|stream| - 1];
    if j < |earlier| {
      assert earlier[..j] == stream[..j] && earlier[j] == stream[j];
      FittingCandidateComesOut(config, window, earlier, j);
      var item :| item in Accepted(config, window, earlier)
                  && item == stream[j].(geo := if config.lookup.Some? then item.geo else stream[j].geo);
      assert item in Accepted(config, window, stream);
    } else {
      assert stream[..j] == earlier;
      assert Accepts(config, window, earlier, c);
      var item := Located(config, c);
      assert item in Accepted(config, window, earlier) + [item];
      assert item == c.(geo := if config.lookup.Some? then item.geo else c.geo);
    }
  }

  /** A candidate that is not new, or whose country does not fit, adds nothing. */
  lemma UnfitCandidateStaysOut(config: Config, window: nat, earlier: seq<Candidate>, c: Candidate)
    requires || (config.enforceUniqueIp && c.key in Last(NewKeys(Keys(earlier), window), window))
             || (config.lookup.Some? && config.countries != {}
                 && (CountryOf(config, c).None? || CountryOf(config, c).value !in config.countries))
             || (config.lookup.Some? && CountryOf(config, c).Some? && CountryOf(config, c).value in config.excluded)
    ensures Accepted(config, window, earlier + [c]) == Accepted(config, window, earlier)
  {
    hide NewKeys, Last, Keys;
    AcceptedSnoc(config, window, earlier, c);
  }
}
