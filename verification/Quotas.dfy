/** Per-type output quotas, `src/cli/quotas.rs`, and the output loop that stops on their verdict,
    `src/cli/output.rs`. */
module Quotas {
  import opened Wrappers
  import opened Protocols

  datatype TypeQuota = TypeQuota(protocol: Protocol, cap: Option<nat>)

  /** What the output loop looks at: the types that passed validation, the advertised ones, and
      whether the output format can render the proxy. */
  datatype Proxy = Proxy(validated: seq<Protocol>, expected: seq<Protocol>, renders: bool)

  // ----- Matching -----

  function Carried(p: Proxy): seq<Protocol> {
    if p.validated == [] then p.expected else p.validated
  }

  predicate SameFamily(a: Protocol, b: Protocol) {
    match (a, b)
    case (Http(_), Http(_)) => true
    case (Https(_), Https(_)) => true
    case (Connect(port), Connect(other)) => port == other
    case (_, _) => a == b
  }

  predicate ProtocolMatches(requested: Protocol, candidate: Protocol) {
    match (requested, candidate)
    case (Http(a), Http(b)) => a.Unknown? || b.Unknown? || a == b
    case (Https(a), Https(b)) => a.Unknown? || b.Unknown? || a == b
    case (Connect(a), Connect(b)) => a == b
    case (_, _) => requested == candidate
  }

  predicate SharesFamily(quota: TypeQuota, p: Proxy) {
    exists i :: 0 <= i < |Carried(p)| && SameFamily(quota.protocol, Carried(p)[i])
  }

  predicate Matches(quota: TypeQuota, p: Proxy) {
    exists i :: 0 <= i < |Carried(p)| && ProtocolMatches(quota.protocol, Carried(p)[i])
  }

  /** No quota names a family the proxy carries. */
  predicate Stray(quotas: seq<TypeQuota>, p: Proxy) {
    forall i :: 0 <= i < |quotas| ==> !SharesFamily(quotas[i], p)
  }

  lemma MatchingSharesFamily(quota: TypeQuota, p: Proxy)
    requires Matches(quota, p)
    ensures SharesFamily(quota, p)
  {
    var i :| 0 <= i < |Carried(p)| && ProtocolMatches(quota.protocol, Carried(p)[i]);
    assert SameFamily(quota.protocol, Carried(p)[i]);
  }

  // ----- The closed form -----

  /** How many proxies of a stream match a quota. */
  function MatchCount(quota: TypeQuota, stream: seq<Proxy>): nat {
    if stream == [] then 0
    else MatchCount(quota, stream[..|stream| - 1]) + (if Matches(quota, stream[|stream| - 1]) then 1 else 0)
  }

  function Min(a: nat, b: nat): nat {
    if a <= b then a else b
  }

  /** Hits of one quota after a stream: the matching proxies, up to the cap. */
  function HitsAfter(quota: TypeQuota, stream: seq<Proxy>): nat {
    if quota.cap.None? then 0 else Min(quota.cap.value, MatchCount(quota, stream))
  }

  /** The quota admits `p` when `earlier` went before it. */
  predicate Admits(quota: TypeQuota, earlier: seq<Proxy>, p: Proxy) {
    Matches(quota, p) && (quota.cap.None? || MatchCount(quota, earlier) < quota.cap.value)
  }

  predicate Emits(quotas: seq<TypeQuota>, earlier: seq<Proxy>, p: Proxy) {
    Stray(quotas, p) || exists i :: 0 <= i < |quotas| && Admits(quotas[i], earlier, p)
  }

  predicate Filled(quota: TypeQuota, stream: seq<Proxy>) {
    quota.cap.Some? && MatchCount(quota, stream) >= quota.cap.value
  }

  predicate AllCapped(quotas: seq<TypeQuota>) {
    forall i :: 0 <= i < |quotas| ==> quotas[i].cap.Some?
  }

  /** Every quota is capped and filled. */
  predicate AllFilled(quotas: seq<TypeQuota>, stream: seq<Proxy>) {
    quotas != [] && forall i :: 0 <= i < |quotas| ==> Filled(quotas[i], stream)
  }

  /** Some quota names the family of `requested`, and all that do are filled. */
  predicate Closed(quotas: seq<TypeQuota>, stream: seq<Proxy>, requested: Protocol) {
    && (exists i :: 0 <= i < |quotas| && SameFamily(quotas[i].protocol, requested))
    && (forall i :: 0 <= i < |quotas| && SameFamily(quotas[i].protocol, requested) ==> Filled(quotas[i], stream))
  }

  lemma MatchCountSnoc(quota: TypeQuota, stream: seq<Proxy>, p: Proxy)
    ensures MatchCount(quota, stream + [p])
         == MatchCount(quota, stream) + (if Matches(quota, p) then 1 else 0)
  {
    assert (stream + [p])[..|stream|] == stream;
  }

  lemma {:induction false} FilledStays(quota: TypeQuota, stream: seq<Proxy>, more: seq<Proxy>)
    requires Filled(quota, stream)
    ensures Filled(quota, stream + more)
  {
    if more == [] {
      assert stream + more == stream;
    } else {
      FilledStays(quota, stream, more[..|more| - 1]);
      MatchCountSnoc(quota, stream + more[..|more| - 1], more[|more| - 1]);
      assert stream + more[..|more| - 1] + [more[|more| - 1]] == stream + more;
    }
  }

  /** One more proxy: who is admitted, and what that does to the hits. */
  lemma OneMore(quota: TypeQuota, earlier: seq<Proxy>, p: Proxy)
    ensures Admits(quota, earlier, p) ==> SharesFamily(quota, p)
    ensures Admits(quota, earlier, p)
       <==> Matches(quota, p) && (quota.cap.None? || HitsAfter(quota, earlier) < quota.cap.value)
    ensures HitsAfter(quota, earlier + [p])
         == HitsAfter(quota, earlier) + (if quota.cap.Some? && Admits(quota, earlier, p) then 1 else 0)
  {
    MatchCountSnoc(quota, earlier, p);
    if Matches(quota, p) {
      MatchingSharesFamily(quota, p);
    }
  }

  // ----- The enforcer -----

  class QuotaEnforcer {
    const quotas: seq<TypeQuota>
    var hits: seq<nat>
    var hasGroups: bool
    /** Every proxy judged so far, in both passes. */
    ghost var judged: seq<Proxy>

    ghost predicate Valid()
      reads this
    {
      |hits| == |quotas| && forall i :: 0 <= i < |quotas| ==> hits[i] == HitsAfter(quotas[i], judged)
    }

    constructor (quotas: seq<TypeQuota>)
      ensures Valid() && this.quotas == quotas && judged == [] && !hasGroups
    {
      this.quotas := quotas;
      hits := seq(|quotas|, _ => 0);
      hasGroups := false;
      judged := [];
    }

    method SetHasGroups(value: bool)
      requires Valid()
      modifies this`hasGroups
      ensures Valid() && hasGroups == value
    {
      hasGroups := value;
    }

    function HasAnyQuota(): bool {
      exists i :: 0 <= i < |quotas| && quotas[i].cap.Some?
    }

    function HasUnfilled(): (unfilled: bool)
      reads this
      requires Valid()
      ensures unfilled <==> exists i :: 0 <= i < |quotas| && quotas[i].cap.Some? && !Filled(quotas[i], judged)
    {
      exists i :: 0 <= i < |quotas| && quotas[i].cap.Some? && hits[i] < quotas[i].cap.value
    }

    function HasUncapped(): bool {
      exists i :: 0 <= i < |quotas| && quotas[i].cap.None?
    }

    function IsSatisfied(): (satisfied: bool)
      reads this
      requires Valid()
      ensures satisfied <==> !hasGroups && AllFilled(quotas, judged)
    {
      assert AllFilled(quotas, judged) ==> quotas[0].cap.Some?;
      HasAnyQuota() && !HasUnfilled() && !HasUncapped() && !hasGroups
    }

    /** The verdict is the closed form over everything judged before, and the hits move on with it. */
    method ShouldEmit(p: Proxy) returns (emit: bool)
      requires Valid()
      modifies this`hits, this`judged
      ensures Valid() && judged == old(judged) + [p]
      ensures emit <==> Emits(quotas, old(judged), p)
    {
      hide Matches, SharesFamily, MatchCount, HitsAfter, Admits;
      ghost var before := judged;
      judged := judged + [p];
      forall i | 0 <= i < |quotas|
        ensures HitsAfter(quotas[i], judged)
             == HitsAfter(quotas[i], before) + (if quotas[i].cap.Some? && Admits(quotas[i], before, p) then 1 else 0)
        ensures Admits(quotas[i], before, p) ==> SharesFamily(quotas[i], p)
      {
        OneMore(quotas[i], before, p);
      }
      var sharesFamily := exists i :: 0 <= i < |quotas| && SharesFamily(quotas[i], p);
      if !sharesFamily {
        return true;
      }
      var consume := Choose(p, before);
      for c := 0 to |consume|
        invariant |hits| == |quotas| && judged == before + [p]
        invariant forall k :: 0 <= k < |quotas| ==>
                    hits[k] == old(hits)[k] + (if quotas[k].cap.Some? && k in consume[..c] then 1 else 0)
      {
        var i := consume[c];
        assert i !in consume[..c];
        assert consume[..c + 1] == consume[..c] + [i];
        if quotas[i].cap.Some? {
          hits := hits[i := hits[i] + 1];
        }
      }
      assert consume[..|consume|] == consume;
      if consume != [] {
        assert consume[0] in consume;
      }
      return consume != [];
    }

    /** The loop that picks the quotas a proxy counts toward. */
    method Choose(p: Proxy, ghost before: seq<Proxy>) returns (consume: seq<nat>)
      requires |hits| == |quotas| && forall i :: 0 <= i < |quotas| ==> hits[i] == HitsAfter(quotas[i], before)
      ensures Increasing(consume, |quotas|)
      ensures forall k :: 0 <= k < |quotas| ==> (k in consume <==> Admits(quotas[k], before, p))
    {
      hide Matches, MatchCount, HitsAfter, Admits;
      consume := [];
      for i := 0 to |quotas|
        invariant Increasing(consume, i)
        invariant forall k :: 0 <= k < i ==> (k in consume <==> Admits(quotas[k], before, p))
      {
        OneMore(quotas[i], before, p);
        if Matches(quotas[i], p) {
          if quotas[i].cap.None? {
            consume := consume + [i];
          } else if hits[i] < quotas[i].cap.value {
            consume := consume + [i];
          }
        }
      }
    }

    /** Whether probing `requested` is pointless. */
    method IsProtocolClosed(requested: Protocol) returns (closed: bool)
      requires Valid()
      ensures closed <==> Closed(quotas, judged, requested)
    {
      closed := false;
      for i := 0 to |quotas|
        invariant closed <==> exists k :: 0 <= k < i && SameFamily(quotas[k].protocol, requested)
        invariant forall k :: 0 <= k < i && SameFamily(quotas[k].protocol, requested) ==> Filled(quotas[k], judged)
      {
        if SameFamily(quotas[i].protocol, requested) {
          closed := true;
          if quotas[i].cap.None? || hits[i] < quotas[i].cap.value {
            assert !Filled(quotas[i], judged);
            return false;
          }
        }
      }
    }
  }

  /** Indices below `bound`, each larger than the ones before it. */
  predicate Increasing(s: seq<nat>, bound: nat) {
    && (forall k :: 0 <= k < |s| ==> s[k] < bound)
    && (forall j, k :: 0 <= j < k < |s| ==> s[j] < s[k])
  }

  // ----- Whole streams -----

  /** The proxies of `stream` that filtering all of it with `should_emit` lets through, when
      `earlier` was judged before. */
  function Filtered(quotas: seq<TypeQuota>, earlier: seq<Proxy>, stream: seq<Proxy>): seq<Proxy>
    decreases |stream|
  {
    if stream == [] then []
    else
      (if Emits(quotas, earlier, stream[0]) then [stream[0]] else [])
      + Filtered(quotas, earlier + [stream[0]], stream[1..])
  }

  /** Where the loop stops: behind the first proxy that leaves every quota filled. */
  function StopAt(quotas: seq<TypeQuota>, groups: bool, earlier: seq<Proxy>, stream: seq<Proxy>): (k: nat)
    ensures k <= |stream|
    decreases |stream|
  {
    if stream == [] then 0
    else if !groups && AllFilled(quotas, earlier + [stream[0]]) then 1
    else 1 + StopAt(quotas, groups, earlier + [stream[0]], stream[1..])
  }

  /** The proxies of a list that become rows. One that does not render has used up quota all the same. */
  function Rendered(proxies: seq<Proxy>): (rows: seq<Proxy>)
    ensures |rows| <= |proxies|
  {
    if proxies == [] then []
    else (if proxies[0].renders then [proxies[0]] else []) + Rendered(proxies[1..])
  }

  lemma {:induction false} RenderedConcat(a: seq<Proxy>, b: seq<Proxy>)
    ensures Rendered(a + b) == Rendered(a) + Rendered(b)
  {
    if a == [] {
      assert a + b == b;
    } else {
      RenderedConcat(a[1..], b);
      assert (a + b)[0] == a[0] && (a + b)[1..] == a[1..] + b;
      Assoc(if a[0].renders then [a[0]] else [], Rendered(a[1..]), Rendered(b));
    }
  }

  function Take(rows: seq<Proxy>, limit: nat): seq<Proxy> {
    if limit == 0 || |rows| <= limit then rows else rows[..limit]
  }

  /** The item loop of `process_result`, reduced to which rows it writes. A limit of 0 is none. */
  method EmitRows(enforcer: QuotaEnforcer, source: seq<Proxy>, limit: nat) returns (rows: seq<Proxy>)
    requires enforcer.Valid()
    modifies enforcer`hits, enforcer`judged
    ensures enforcer.Valid()
    ensures var earlier := old(enforcer.judged);
            var stop := StopAt(enforcer.quotas, enforcer.hasGroups, earlier, source);
            && rows == Take(Rendered(Filtered(enforcer.quotas, earlier, source[..stop])), limit)
            && earlier <= enforcer.judged <= earlier + source[..stop]
  {
    hide Filtered, StopAt, Emits, AllFilled, Rendered;
    rows := [];
    ghost var quotas, groups, earlier := enforcer.quotas, enforcer.hasGroups, enforcer.judged;
    ghost var stop := StopAt(quotas, groups, earlier, source);
    var i := 0;
    LoopStart(quotas, groups, earlier, source);
    while i < |source|
      invariant 0 <= i <= stop <= |source|
      invariant enforcer.Valid() && enforcer.hasGroups == groups
      invariant enforcer.judged == earlier + source[..i]
      invariant rows == Rendered(Filtered(quotas, earlier, source[..i]))
      invariant limit == 0 || |rows| < limit
      invariant stop == i + StopAt(quotas, groups, earlier + source[..i], source[i..])
    {
      var proxy := source[i];
      ghost var seen := earlier + source[..i];
      LoopStep(quotas, groups, earlier, source, i);
      RenderedSnoc(Filtered(quotas, earlier, source[..i]), proxy);
      var emit := enforcer.ShouldEmit(proxy);
      i := i + 1;
      if !emit {
        if enforcer.IsSatisfied() {
          return;
        }
        continue;
      }
      if proxy.renders {
        rows := rows + [proxy];
      }
      if limit > 0 && |rows| >= limit {
        RenderedPrefix(quotas, earlier, source[..stop], i);
        assert source[..stop][..i] == source[..i];
        return;
      }
      if enforcer.IsSatisfied() {
        return;
      }
    }
    StopAtEnd(quotas, groups, enforcer.judged);
  }

  lemma LoopStart(quotas: seq<TypeQuota>, groups: bool, earlier: seq<Proxy>, source: seq<Proxy>)
    ensures earlier + source[..0] == earlier && source[0..] == source
    ensures Rendered(Filtered(quotas, earlier, source[..0])) == []
  {
  }

  lemma RenderedSnoc(proxies: seq<Proxy>, last: Proxy)
    ensures Rendered(proxies + [last]) == Rendered(proxies) + (if last.renders then [last] else [])
    ensures proxies + [] == proxies
  {
    RenderedConcat(proxies, [last]);
    assert [last][1..] == [];
    assert Rendered([last]) == (if last.renders then [last] else []) + Rendered([]);
  }

  lemma LoopStep(quotas: seq<TypeQuota>, groups: bool, earlier: seq<Proxy>, source: seq<Proxy>, i: nat)
    requires i < |source|
    ensures earlier + source[..i] + [source[i]] == earlier + source[..i + 1]
    ensures Filtered(quotas, earlier, source[..i + 1])
         == Filtered(quotas, earlier, source[..i])
            + (if Emits(quotas, earlier + source[..i], source[i]) then [source[i]] else [])
    ensures StopAt(quotas, groups, earlier + source[..i], source[i..])
         == if !groups && AllFilled(quotas, earlier + source[..i + 1]) then 1
            else 1 + StopAt(quotas, groups, earlier + source[..i + 1], source[i + 1..])
  {
    hide Filtered, Emits, AllFilled;
    FilteredSnoc(quotas, earlier, source[..i], source[i]);
    assert source[..i] + [source[i]] == source[..i + 1];
    Assoc(earlier, source[..i], [source[i]]);
    assert source[i..][0] == source[i] && source[i..][1..] == source[i + 1..];
  }

  lemma StopAtEnd(quotas: seq<TypeQuota>, groups: bool, earlier: seq<Proxy>)
    ensures StopAt(quotas, groups, earlier, []) == 0
  {
  }

  lemma {:induction false} FilteredSnoc(quotas: seq<TypeQuota>, earlier: seq<Proxy>, stream: seq<Proxy>, p: Proxy)
    ensures Filtered(quotas, earlier, stream + [p])
         == Filtered(quotas, earlier, stream) + (if Emits(quotas, earlier + stream, p) then [p] else [])
    decreases |stream|
  {
    hide Emits;
    if stream == [] {
      assert stream + [p] == [p] && earlier + stream == earlier && [p][1..] == [];
      assert Filtered(quotas, earlier + [p], []) == [];
    } else {
      FilteredSnoc(quotas, earlier + [stream[0]], stream[1..], p);
      assert (stream + [p])[1..] == stream[1..] + [p];
      assert earlier + [stream[0]] + stream[1..] == earlier + stream;
    }
  }

  /** Filtering a stream in two parts. */
  lemma {:induction false} FilteredConcat(quotas: seq<TypeQuota>, earlier: seq<Proxy>, a: seq<Proxy>, b: seq<Proxy>)
    ensures Filtered(quotas, earlier, a + b)
         == Filtered(quotas, earlier, a) + Filtered(quotas, earlier + a, b)
    decreases |a|
  {
    hide Emits;
    if a == [] {
      assert a + b == b && earlier + a == earlier;
    } else {
      FilteredConcat(quotas, earlier + [a[0]], a[1..], b);
      assert (a + b)[0] == a[0] && (a + b)[1..] == a[1..] + b;
      Assoc(earlier, [a[0]], a[1..]);
      assert [a[0]] + a[1..] == a;
      var first := if Emits(quotas, earlier, a[0]) then [a[0]] else [];
      Assoc(first, Filtered(quotas, earlier + [a[0]], a[1..]), Filtered(quotas, earlier + a, b));
    }
  }

  lemma RenderedPrefix(quotas: seq<TypeQuota>, earlier: seq<Proxy>, stream: seq<Proxy>, k: nat)
    requires k <= |stream|
    ensures Rendered(Filtered(quotas, earlier, stream[..k])) <= Rendered(Filtered(quotas, earlier, stream))
  {
    hide Filtered, Rendered;
    FilteredConcat(quotas, earlier, stream[..k], stream[k..]);
    RenderedConcat(Filtered(quotas, earlier, stream[..k]), Filtered(quotas, earlier + stream[..k], stream[k..]));
    assert stream[..k] + stream[k..] == stream;
  }

  /** A row limit cuts a list to its first rows; a limit of 0 is none. */
  lemma TakeIs(rows: seq<Proxy>, limit: nat)
    ensures Take(rows, limit) <= rows
    ensures |Take(rows, limit)| == if limit > 0 && limit < |rows| then limit else |rows|
  {
  }

  // ----- Early stop -----

  /** The strays of a stream, in order. */
  function Strays(quotas: seq<TypeQuota>, stream: seq<Proxy>): seq<Proxy> {
    if stream == [] then []
    else (if Stray(quotas, stream[0]) then [stream[0]] else []) + Strays(quotas, stream[1..])
  }

  /** Once all quotas are filled, only strays get through. */
  lemma {:induction false} OnlyStraysBehind(quotas: seq<TypeQuota>, earlier: seq<Proxy>, stream: seq<Proxy>)
    requires AllFilled(quotas, earlier)
    ensures Filtered(quotas, earlier, stream) == Strays(quotas, stream)
    decreases |stream|
  {
    if stream != [] {
      forall i | 0 <= i < |quotas| ensures Filled(quotas[i], earlier + [stream[0]]) {
        FilledStays(quotas[i], earlier, [stream[0]]);
      }
      assert !exists i :: 0 <= i < |quotas| && Admits(quotas[i], earlier, stream[0]);
      OnlyStraysBehind(quotas, earlier + [stream[0]], stream[1..]);
    }
  }

  lemma {:induction false} StoppedWhenFilled(quotas: seq<TypeQuota>, groups: bool,
                                             earlier: seq<Proxy>, stream: seq<Proxy>)
    ensures var k := StopAt(quotas, groups, earlier, stream);
            k < |stream| ==> AllFilled(quotas, earlier + stream[..k])
    decreases |stream|
  {
    hide AllFilled;
    if stream != [] {
      var k := StopAt(quotas, groups, earlier, stream);
      StoppedWhenFilled(quotas, groups, earlier + [stream[0]], stream[1..]);
      assert k >= 1 && [stream[0]] + stream[1..][..k - 1] == stream[..k];
      Assoc(earlier, [stream[0]], stream[1..][..k - 1]);
      assert stream[..1] == [stream[0]];
    }
  }

  /** Stopping early drops exactly the strays that come behind the stop. */
  lemma EarlyStopDropsStrays(quotas: seq<TypeQuota>, groups: bool, earlier: seq<Proxy>, stream: seq<Proxy>)
    ensures var k := StopAt(quotas, groups, earlier, stream);
              Filtered(quotas, earlier, stream)
              == Filtered(quotas, earlier, stream[..k]) + (if k < |stream| then Strays(quotas, stream[k..]) else [])
  {
    hide Filtered, AllFilled, StopAt, Strays;
    var k := StopAt(quotas, groups, earlier, stream);
    if k < |stream| {
      StoppedWhenFilled(quotas, groups, earlier, stream);
      FilteredConcat(quotas, earlier, stream[..k], stream[k..]);
      OnlyStraysBehind(quotas, earlier + stream[..k], stream[k..]);
      assert stream[..k] + stream[k..] == stream;
    } else {
      assert stream[..k] == stream;
    }
  }

  lemma {:induction false} NoStrays(quotas: seq<TypeQuota>, stream: seq<Proxy>)
    ensures Rendered(Strays(quotas, stream)) == [] <==> forall p | p in stream :: !(Stray(quotas, p) && p.renders)
  {
    if stream != [] {
      NoStrays(quotas, stream[1..]);
      assert forall p :: p in stream <==> p == stream[0] || p in stream[1..];
      var first := if Stray(quotas, stream[0]) then [stream[0]] else [];
      RenderedConcat(first, Strays(quotas, stream[1..]));
      assert first != [] ==> first[1..] == [];
    }
  }

  /** The loop writes what filtering the whole stream, up to the row limit, would, exactly when the
      limit is reached before the loop stops, or no proxy behind the stop that renders is of a family
      the quotas do not name. */
  lemma EarlyStopLosesNothing(quotas: seq<TypeQuota>, groups: bool, earlier: seq<Proxy>, stream: seq<Proxy>, limit: nat)
    ensures var k := StopAt(quotas, groups, earlier, stream);
            var kept := Rendered(Filtered(quotas, earlier, stream[..k]));
            Take(kept, limit) == Take(Rendered(Filtered(quotas, earlier, stream)), limit)
            <==> || (limit > 0 && |kept| >= limit)
                 || forall p | p in stream[k..] :: !(Stray(quotas, p) && p.renders)
  {
    hide Filtered, StopAt, Strays, Stray, Rendered;
    var k := StopAt(quotas, groups, earlier, stream);
    EarlyStopDropsStrays(quotas, groups, earlier, stream);
    NoStrays(quotas, stream[k..]);
    var through := Filtered(quotas, earlier, stream[..k]);
    if k < |stream| {
      RenderedConcat(through, Strays(quotas, stream[k..]));
      TakeMore(Rendered(through), Rendered(Strays(quotas, stream[k..])), limit);
    } else {
      assert through + [] == through;
    }
  }

  lemma TakeMore(rows: seq<Proxy>, more: seq<Proxy>, limit: nat)
    ensures Take(rows, limit) == Take(rows + more, limit) <==> (limit > 0 && |rows| >= limit) || more == []
  {
    assert |rows + more| == |rows| + |more|;
    if limit > 0 && |rows| >= limit {
      assert (rows + more)[..limit] == rows[..limit];
    } else if more == [] {
      assert rows + more == rows;
    } else {
      assert |Take(rows + more, limit)| > |rows|;
    }
  }

  /** A quota set of `HTTP=1` and a stream whose second proxy is SOCKS5: the loop never sees it. Under
      a row limit of 1 that makes no difference. */
  lemma StrayIsLost()
    ensures var quotas := [TypeQuota(Http(Unknown), Some(1))];
            var stream := [Proxy([Http(Elite)], [], true), Proxy([Socks5], [], true)];
            && StopAt(quotas, false, [], stream) == 1
            && Take(Rendered(Filtered(quotas, [], stream[..1])), 0) != Take(Rendered(Filtered(quotas, [], stream)), 0)
            && Take(Rendered(Filtered(quotas, [], stream[..1])), 1) == Take(Rendered(Filtered(quotas, [], stream)), 1)
  {
    var quotas := [TypeQuota(Http(Unknown), Some(1))];
    var stream := [Proxy([Http(Elite)], [], true), Proxy([Socks5], [], true)];
    assert ProtocolMatches(Http(Unknown), Carried(stream[0])[0]);
    assert Matches(quotas[0], stream[0]);
    assert [] + [stream[0]] == [stream[0]];
    assert MatchCount(quotas[0], []) == 0;
    MatchCountSnoc(quotas[0], [], stream[0]);
    assert Filled(quotas[0], [stream[0]]);
    assert StopAt(quotas, false, [], stream) == 1;
    assert Stray(quotas, stream[1]);
    assert stream[1] in stream[1..];
    EarlyStopLosesNothing(quotas, false, [], stream, 0);
    EarlyStopLosesNothing(quotas, false, [], stream, 1);
    assert Admits(quotas[0], [], stream[0]);
    assert stream[..1] == [stream[0]] && [stream[0]][1..] == [];
    assert Filtered(quotas, [], [stream[0]]) == [stream[0]] + Filtered(quotas, [stream[0]], []);
    assert Rendered([stream[0]]) == [stream[0]] + Rendered([]);
  }

  // ----- Closed protocols -----

  /** The proxy carries types of one family only. */
  predicate OfFamily(requested: Protocol, p: Proxy) {
    Carried(p) != [] && forall i :: 0 <= i < |Carried(p)| ==> SameFamily(requested, Carried(p)[i])
  }

  lemma ClosedAdmitsNothing(quotas: seq<TypeQuota>, judged: seq<Proxy>, requested: Protocol, more: seq<Proxy>, p: Proxy)
    requires Closed(quotas, judged, requested) && OfFamily(requested, p)
    ensures !Emits(quotas, judged + more, p)
  {
    hide MatchCount, Matches;
    var named :| 0 <= named < |quotas| && SameFamily(quotas[named].protocol, requested);
    assert SameFamily(quotas[named].protocol, Carried(p)[0]);
    assert SharesFamily(quotas[named], p);
    forall i | 0 <= i < |quotas| ensures !Admits(quotas[i], judged + more, p) {
      if Matches(quotas[i], p) {
        MatchingSharesFamily(quotas[i], p);
        FilledStays(quotas[i], judged, more);
      }
    }
  }

  /** A protocol is closed exactly when no proxy that carries only its family will be let through any
      more, whatever comes in between. */
  lemma ClosedIsPointless(quotas: seq<TypeQuota>, judged: seq<Proxy>, requested: Protocol)
    ensures Closed(quotas, judged, requested)
       <==> forall more: seq<Proxy>, p: Proxy :: OfFamily(requested, p) ==> !Emits(quotas, judged + more, p)
  {
    hide MatchCount;
    if Closed(quotas, judged, requested) {
      forall more: seq<Proxy>, p: Proxy | OfFamily(requested, p) ensures !Emits(quotas, judged + more, p) {
        ClosedAdmitsNothing(quotas, judged, requested, more, p);
      }
    } else {
      assert judged + [] == judged;
      var open := Proxy([requested], [], true);
      if i: int :| 0 <= i < |quotas| && SameFamily(quotas[i].protocol, requested) && !Filled(quotas[i], judged) {
        open := Proxy([quotas[i].protocol], [], true);
        assert ProtocolMatches(quotas[i].protocol, Carried(open)[0]);
        assert Admits(quotas[i], judged, open);
      } else {
        assert Stray(quotas, open);
      }
      assert OfFamily(requested, open) && Emits(quotas, judged + [], open);
    }
  }

  // ----- The caps bound the output -----

  function CapSum(quotas: seq<TypeQuota>): nat
    requires AllCapped(quotas)
  {
    if quotas == [] then 0 else quotas[0].cap.value + CapSum(quotas[1..])
  }

  function HitSum(quotas: seq<TypeQuota>, stream: seq<Proxy>): nat {
    if quotas == [] then 0 else HitsAfter(quotas[0], stream) + HitSum(quotas[1..], stream)
  }

  lemma {:induction false} HitSumBounded(quotas: seq<TypeQuota>, stream: seq<Proxy>)
    requires AllCapped(quotas)
    ensures HitSum(quotas, stream) <= CapSum(quotas)
  {
    if quotas != [] {
      HitSumBounded(quotas[1..], stream);
    }
  }

  lemma {:induction false} HitSumGrows(quotas: seq<TypeQuota>, earlier: seq<Proxy>, p: Proxy)
    requires AllCapped(quotas)
    ensures HitSum(quotas, earlier) <= HitSum(quotas, earlier + [p])
    ensures (exists i :: 0 <= i < |quotas| && Admits(quotas[i], earlier, p)) ==>
              HitSum(quotas, earlier) < HitSum(quotas, earlier + [p])
  {
    if quotas != [] {
      MatchCountSnoc(quotas[0], earlier, p);
      HitSumGrows(quotas[1..], earlier, p);
      if exists i :: 0 <= i < |quotas| && Admits(quotas[i], earlier, p) {
        var i :| 0 <= i < |quotas| && Admits(quotas[i], earlier, p);
        if i > 0 {
          assert Admits(quotas[1..][i - 1], earlier, p);
        }
      }
    }
  }

  lemma {:induction false} EmittedWithinHits(quotas: seq<TypeQuota>, earlier: seq<Proxy>, stream: seq<Proxy>)
    requires AllCapped(quotas) && forall p | p in stream :: !Stray(quotas, p)
    ensures |Filtered(quotas, earlier, stream)| + HitSum(quotas, earlier) <= HitSum(quotas, earlier + stream)
    decreases |stream|
  {
    if stream == [] {
      assert earlier + stream == earlier;
    } else {
      HitSumGrows(quotas, earlier, stream[0]);
      EmittedWithinHits(quotas, earlier + [stream[0]], stream[1..]);
      assert earlier + [stream[0]] + stream[1..] == earlier + stream;
    }
  }

  /** With every quota capped and no strays, no more rows get through than the caps add up to. */
  lemma CapsBoundOutput(quotas: seq<TypeQuota>, stream: seq<Proxy>)
    requires AllCapped(quotas) && forall p | p in stream :: !Stray(quotas, p)
    ensures |Filtered(quotas, [], stream)| <= CapSum(quotas)
  {
    EmittedWithinHits(quotas, [], stream);
    HitSumBounded(quotas, stream);
    assert [] + stream == stream;
  }

  // ----- One quota, one type -----

  /** A proxy that passed validation as `t` only, under the sole quota `q`: whether it counts, and what
      that means for it. */
  lemma SoleQuota(q: TypeQuota, t: Protocol, p: Proxy, earlier: seq<Proxy>)
    requires p.validated == [t]
    ensures MatchCount(q, earlier + [p]) == MatchCount(q, earlier) + (if ProtocolMatches(q.protocol, t) then 1 else 0)
    ensures Emits([q], earlier, p)
       <==> || !SameFamily(q.protocol, t)
            || (ProtocolMatches(q.protocol, t) && (q.cap.None? || MatchCount(q, earlier) < q.cap.value))
  {
    hide MatchCount, SameFamily, ProtocolMatches;
    MatchCountSnoc(q, earlier, p);
    assert Carried(p)[0] == t;
    assert Matches(q, p) <==> ProtocolMatches(q.protocol, t);
    assert SharesFamily(q, p) <==> SameFamily(q.protocol, t);
    assert [q][0] == q;
    assert Admits(q, earlier, p) ==> Admits([q][0], earlier, p);
  }

  /** The proxy is counted, and let through exactly while the quota has room. */
  predicate Counted(q: TypeQuota, p: Proxy, earlier: seq<Proxy>) {
    && MatchCount(q, earlier + [p]) == MatchCount(q, earlier) + 1
    && (Emits([q], earlier, p) <==> q.cap.None? || MatchCount(q, earlier) < q.cap.value)
  }

  /** The proxy is never let through, and the quota is none the wiser. */
  predicate Refused(q: TypeQuota, p: Proxy, earlier: seq<Proxy>) {
    MatchCount(q, earlier + [p]) == MatchCount(q, earlier) && !Emits([q], earlier, p)
  }

  /** The proxy is always let through, and the quota is none the wiser. */
  predicate PassedBy(q: TypeQuota, p: Proxy, earlier: seq<Proxy>) {
    MatchCount(q, earlier + [p]) == MatchCount(q, earlier) && Emits([q], earlier, p)
  }

  /** HTTP and HTTPS: a proxy of the quota's scheme is counted when the levels agree or one of them is
      unknown, and refused when they are known and differ. */
  lemma LevelQuotas(a: Anonymity, b: Anonymity, cap: Option<nat>, p: Proxy, earlier: seq<Proxy>)
    ensures p.validated == [Http(b)] ==>
              var q := TypeQuota(Http(a), cap);
              if a == b || a == Unknown || b == Unknown then Counted(q, p, earlier) else Refused(q, p, earlier)
    ensures p.validated == [Https(b)] ==>
              var q := TypeQuota(Https(a), cap);
              if a == b || a == Unknown || b == Unknown then Counted(q, p, earlier) else Refused(q, p, earlier)
  {
    hide MatchCount, Emits;
    if p.validated == [Http(b)] {
      SoleQuota(TypeQuota(Http(a), cap), Http(b), p, earlier);
    } else if p.validated == [Https(b)] {
      SoleQuota(TypeQuota(Https(a), cap), Https(b), p, earlier);
    }
  }

  /** SOCKS and CONNECT: a proxy of the very type is counted. */
  lemma ExactQuotas(t: Protocol, cap: Option<nat>, p: Proxy, earlier: seq<Proxy>)
    requires (t.Socks4? || t.Socks5? || t.Connect?) && p.validated == [t]
    ensures Counted(TypeQuota(t, cap), p, earlier)
  {
    hide MatchCount, Emits;
    SoleQuota(TypeQuota(t, cap), t, p, earlier);
  }

  /** A proxy of another scheme, or of CONNECT to another port, is passed by. */
  lemma OtherFamilies(requested: Protocol, t: Protocol, cap: Option<nat>, p: Proxy, earlier: seq<Proxy>)
    requires p.validated == [t] && t != requested
    requires !(requested.Http? && t.Http?) && !(requested.Https? && t.Https?)
    ensures PassedBy(TypeQuota(requested, cap), p, earlier)
  {
    hide MatchCount, Emits;
    SoleQuota(TypeQuota(requested, cap), t, p, earlier);
  }

  function Copies(p: Proxy, k: nat): seq<Proxy> {
    seq(k, _ => p)
  }

  /** Of one and the same counted proxy, exactly as many are let through as the quota's cap. */
  lemma {:induction false} CopiesUnderCap(q: TypeQuota, p: Proxy, k: nat)
    requires forall earlier: seq<Proxy> :: Counted(q, p, earlier)
    ensures MatchCount(q, Copies(p, k)) == k
    ensures Emits([q], Copies(p, k), p) <==> q.cap.None? || k < q.cap.value
  {
    hide Emits;
    if k > 0 {
      CopiesUnderCap(q, p, k - 1);
      assert Counted(q, p, Copies(p, k - 1));
      assert Copies(p, k - 1) + [p] == Copies(p, k);
    }
    assert Counted(q, p, Copies(p, k));
  }

  // ----- Several types, several quotas -----

  /** Types that passed validation outrank the advertised ones, which speak for a proxy that has none. */
  lemma ValidatedOutrank(quotas: seq<TypeQuota>, earlier: seq<Proxy>, types: seq<Protocol>, expected: seq<Protocol>,
                         others: seq<Protocol>, renders: bool)
    ensures types != [] ==>
              (Emits(quotas, earlier, Proxy(types, expected, renders))
               <==> Emits(quotas, earlier, Proxy(types, others, renders)))
    ensures Emits(quotas, earlier, Proxy([], types, renders)) <==> Emits(quotas, earlier, Proxy(types, [], renders))
  {
    if types != [] {
      SameCarried(quotas, earlier, Proxy(types, expected, renders), Proxy(types, others, renders));
    }
    SameCarried(quotas, earlier, Proxy([], types, renders), Proxy(types, [], renders));
  }

  lemma SameCarried(quotas: seq<TypeQuota>, earlier: seq<Proxy>, p: Proxy, other: Proxy)
    requires Carried(p) == Carried(other)
    ensures Emits(quotas, earlier, p) <==> Emits(quotas, earlier, other)
  {
    hide MatchCount;
    assert forall q: TypeQuota :: Admits(q, earlier, p) <==> Admits(q, earlier, other);
    assert forall q: TypeQuota :: SharesFamily(q, p) <==> SharesFamily(q, other);
  }

  /** A proxy of several types is a stray when each of its types alone would make one, and a quota
      counts it when it would count one of them alone. */
  lemma EachTypeSpeaks(quotas: seq<TypeQuota>, q: TypeQuota, types: seq<Protocol>, renders: bool)
    ensures Stray(quotas, Proxy(types, [], renders))
       <==> forall i :: 0 <= i < |types| ==> Stray(quotas, Proxy([types[i]], [], renders))
    ensures Matches(q, Proxy(types, [], renders))
       <==> exists i :: 0 <= i < |types| && Matches(q, Proxy([types[i]], [], renders))
  {
    hide SameFamily, ProtocolMatches;
    forall q: TypeQuota, t: Protocol
      ensures Matches(q, Proxy([t], [], renders)) <==> ProtocolMatches(q.protocol, t)
      ensures SharesFamily(q, Proxy([t], [], renders)) <==> SameFamily(q.protocol, t)
    {
      assert Carried(Proxy([t], [], renders))[0] == t;
    }
    var all := Proxy(types, [], renders);
    assert Carried(all) == types;
  }

  /** Several quotas let through what is a stray to all of them, or what one of them, on its own, lets
      through as one of its family. */
  lemma OneQuotaSuffices(quotas: seq<TypeQuota>, earlier: seq<Proxy>, p: Proxy)
    ensures Emits(quotas, earlier, p)
       <==> || (forall i :: 0 <= i < |quotas| ==> Stray([quotas[i]], p))
            || (exists i :: 0 <= i < |quotas| && !Stray([quotas[i]], p) && Emits([quotas[i]], earlier, p))
  {
    hide MatchCount, Matches, SharesFamily;
    forall i | 0 <= i < |quotas|
      ensures Stray([quotas[i]], p) <==> !SharesFamily(quotas[i], p)
      ensures Emits([quotas[i]], earlier, p) <==> !SharesFamily(quotas[i], p) || Admits(quotas[i], earlier, p)
      ensures Admits(quotas[i], earlier, p) ==> SharesFamily(quotas[i], p)
    {
      assert [quotas[i]][0] == quotas[i];
      OneMore(quotas[i], earlier, p);
      assert Admits(quotas[i], earlier, p) ==> Admits([quotas[i]][0], earlier, p);
    }
  }

  // ----- When the loop stops -----

  /** All quotas are filled exactly when nothing but strays will be let through any more, whatever comes
      in between. */
  lemma FilledMeansOnlyStrays(quotas: seq<TypeQuota>, judged: seq<Proxy>)
    requires quotas != []
    ensures AllFilled(quotas, judged)
       <==> forall more: seq<Proxy>, p: Proxy :: Emits(quotas, judged + more, p) ==> Stray(quotas, p)
  {
    hide MatchCount;
    if AllFilled(quotas, judged) {
      forall more: seq<Proxy>, p: Proxy | Emits(quotas, judged + more, p) ensures Stray(quotas, p) {
        forall i | 0 <= i < |quotas| ensures !Admits(quotas[i], judged + more, p) {
          FilledStays(quotas[i], judged, more);
        }
      }
    } else {
      var i :| 0 <= i < |quotas| && !Filled(quotas[i], judged);
      var p := Proxy([quotas[i].protocol], [], true);
      assert ProtocolMatches(quotas[i].protocol, Carried(p)[0]);
      MatchingSharesFamily(quotas[i], p);
      assert judged + [] == judged;
      assert Admits(quotas[i], judged + [], p);
      assert Emits(quotas, judged + [], p) && !Stray(quotas, p);
    }
  }

  /** The loop runs to the end of a stream when there are groups; otherwise it stops behind the first
      proxy that leaves every quota filled. */
  lemma {:induction false} StopsAtFirst(quotas: seq<TypeQuota>, groups: bool, earlier: seq<Proxy>, stream: seq<Proxy>)
    ensures var k := StopAt(quotas, groups, earlier, stream);
            && (groups ==> k == |stream|)
            && (stream != [] ==> k >= 1)
            && (k < |stream| ==> AllFilled(quotas, earlier + stream[..k]))
            && (!groups ==> forall j :: 1 <= j < k ==> !AllFilled(quotas, earlier + stream[..j]))
    decreases |stream|
  {
    hide AllFilled;
    StoppedWhenFilled(quotas, groups, earlier, stream);
    if stream != [] {
      var k := StopAt(quotas, groups, earlier, stream);
      StopsAtFirst(quotas, groups, earlier + [stream[0]], stream[1..]);
      if !groups {
        forall j | 1 <= j < k ensures !AllFilled(quotas, earlier + stream[..j]) {
          Assoc(earlier, [stream[0]], stream[1..][..j - 1]);
          assert [stream[0]] + stream[1..][..j - 1] == stream[..j];
          if j == 1 {
            assert earlier + [stream[0]] == earlier + stream[..j];
          }
        }
      }
    }
  }
}
