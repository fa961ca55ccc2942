/** Reading protocols and proxy endpoints from text, `src/proxy/models.rs` and
    `src/providers/parsers.rs`. */
module Endpoint {
  import opened Wrappers
  import opened Protocols
  import opened Net
  import opened Text

  // ----- Protocols -----

  function Lower(c: char): char {
    if 'A' <= c <= 'Z' then (c as int + 32) as char else c
  }

  function LowerText(s: string): string {
    seq(|s|, i requires 0 <= i < |s| => Lower(s[i]))
  }

  predicate EqIgnoreCase(s: string, t: string) {
    |s| == |t| && forall i :: 0 <= i < |s| ==> Lower(s[i]) == Lower(t[i])
  }

  function ParseAnonymity(qualifier: Option<string>): Option<Anonymity> {
    match qualifier
    case None => Some(Unknown)
    case Some(text) =>
      var level := Trim(text);
      if level == "" then Some(Unknown)
      else if EqIgnoreCase(level, "transparent") then Some(Transparent)
      else if EqIgnoreCase(level, "anonymous") then Some(Anonymous)
      else if EqIgnoreCase(level, "elite") then Some(Elite)
      else None
  }

  /** `FromStr for Protocol`. */
  function ParseProtocol(s: string): Option<Protocol> {
    var parts := SplitOn(s, ":");
    var second := if |parts| > 1 then Some(parts[1]) else None;
    match parts[0]
    case "HTTP" =>
      var a :- ParseAnonymity(second);
      Some(Http(a))
    case "HTTPS" =>
      var a :- ParseAnonymity(second);
      Some(Https(a))
    case "SOCKS4" => Some(Socks4)
    case "SOCKS5" => Some(Socks5)
    case "CONNECT" =>
      var digits :- second;
      var port :- ParseU16(digits);
      Some(Connect(port))
    case _ => None
  }

  lemma ParseLevel(a: Anonymity)
    requires a != Unknown
    ensures ParseAnonymity(Some(LevelText(a)[1..])) == Some(a)
  {
    hide Trim, Lower;
    LevelNames();
    match a
    case Elite =>
      TrimOneSpace("Elite");
      assert ": Elite"[1..] == " " + "Elite";
    case Transparent =>
      TrimOneSpace("Transparent");
      assert ": Transparent"[1..] == " " + "Transparent";
    case Anonymous =>
      TrimOneSpace("Anonymous");
      assert ": Anonymous"[1..] == " " + "Anonymous";
  }

  lemma LevelNames()
    ensures EqIgnoreCase("Elite", "elite") && EqIgnoreCase("Transparent", "transparent")
    ensures EqIgnoreCase("Anonymous", "anonymous")
  {
  }

  lemma TrimOneSpace(s: string)
    requires s != "" && !IsWhitespace(s[0]) && !IsWhitespace(s[|s| - 1])
    ensures Trim(" " + s) == s
  {
    assert (" " + s)[0] == ' ' && (" " + s)[1..] == s;
    assert TrimStart(" " + s) == TrimStart(s) == s;
  }

  /** A family name, optionally with something behind a colon. */
  lemma SplitFamily(family: string, rest: string)
    requires Lacks(family, ':') && (rest == "" || (rest[0] == ':' && Lacks(rest[1..], ':')))
    ensures SplitOn(family + rest, ":") == if rest == "" then [family] else [family, rest[1..]]
  {
    if rest == "" {
      assert family + rest == family;
      SplitWithout(family, ':');
    } else {
      assert family + rest == family + [':'] + rest[1..];
      SplitAtFirst(family, ':', rest[1..]);
      SplitWithout(rest[1..], ':');
    }
  }

  /** Parsing what a protocol prints as gives the protocol. */
  lemma ProtocolRoundTrip(p: Protocol)
    ensures ParseProtocol(ProtocolText(p)) == Some(p)
  {
    hide SplitOn, ParseAnonymity, NatText, ParseU16;
    match p
    case Http(a) =>
      SplitFamily("HTTP", LevelText(a));
      ParseLevelOrNone(a);
    case Https(a) =>
      SplitFamily("HTTPS", LevelText(a));
      ParseLevelOrNone(a);
    case Socks4 =>
      SplitFamily("SOCKS4", "");
      assert "SOCKS4" + "" == "SOCKS4";
    case Socks5 =>
      SplitFamily("SOCKS5", "");
      assert "SOCKS5" + "" == "SOCKS5";
    case Connect(port) =>
      var digits := NatText(port);
      DigitsLack(digits, ':');
      assert ("CONNECT:" + digits) == "CONNECT" + (":" + digits) && (":" + digits)[1..] == digits;
      SplitFamily("CONNECT", ":" + digits);
      PortRoundTrip(port);
  }

  lemma ParseLevelOrNone(a: Anonymity)
    ensures ParseAnonymity(if LevelText(a) == "" then None else Some(LevelText(a)[1..])) == Some(a)
  {
    if a != Unknown {
      ParseLevel(a);
    }
  }

  // ----- Address and port -----

  /** The part of `s` in front of the first of `stops`. */
  function UpTo(s: string, stops: string): string {
    if s == "" || s[0] in stops then "" else [s[0]] + UpTo(s[1..], stops)
  }

  /** What is left of a line when a scheme in front and a path behind are taken off. */
  function WithoutUrl(head: string): string {
    match Find(head, "//", 0)
    case None => head
    case Some(i) =>
      if i > 0 && head[i - 1] == ':' then UpTo(head[i + 2..], "/?") else head[..i]
  }

  /** `parse_pair`: the first field of the line, without scheme and path, as `ip:port`; port 0 is refused. */
  function ParsePair(text: string): Option<(Ipv4, u16)> {
    var head := Trim(UpTo(Trim(text), " \t#,|"));
    var fields := SplitOn(Trim(WithoutUrl(head)), ":");
    var ip :- ParseIpv4(Trim(fields[0]));
    if |fields| < 2 then None
    else
      var port :- ParseU16(Trim(fields[1]));
      if port == 0 then None else Some((ip, port))
  }

  function PairText(ip: Ipv4, port: u16): string {
    Ipv4Text(ip) + ":" + NatText(port)
  }

  predicate AddressChar(c: char) {
    IsDigit(c) || c == '.' || c == ':'
  }

  lemma {:induction false} UpToNothing(s: string, stops: string)
    requires forall i :: 0 <= i < |s| ==> s[i] !in stops
    ensures UpTo(s, stops) == s
  {
    if s != "" {
      UpToNothing(s[1..], stops);
    }
  }

  lemma AddressText(ip: Ipv4)
    ensures var s := Ipv4Text(ip);
            && s != "" && IsDigit(s[0]) && IsDigit(s[|s| - 1])
            && (forall i :: 0 <= i < |s| ==> IsDigit(s[i]) || s[i] == '.')
  {
    hide NatText;
    var d := NatText(ip.d);
    assert Ipv4Text(ip)[|Ipv4Text(ip)| - 1] == d[|d| - 1];
  }

  lemma PlainAddressChars(s: string)
    requires s != "" && IsDigit(s[0]) && IsDigit(s[|s| - 1])
    requires forall i :: 0 <= i < |s| ==> AddressChar(s[i])
    ensures Trim(s) == s && UpTo(s, " \t#,|") == s && Find(s, "//", 0).None? && Lacks(s, '@')
  {
    hide Find, Trim, UpTo;
    TrimmedAlready(s);
    forall i | 0 <= i < |s| ensures s[i] !in " \t#,|" {
      assert AddressChar(s[i]);
    }
    UpToNothing(s, " \t#,|");
    NoSlashes(s);
  }

  lemma NoSlashes(s: string)
    requires forall i :: 0 <= i < |s| ==> AddressChar(s[i])
    ensures Find(s, "//", 0).None?
  {
    hide Find;
    forall i: nat ensures !OccursAt(s, "//", i) {
      if i + 2 <= |s| {
        assert s[i..i + 2][0] == s[i] && AddressChar(s[i]);
      }
    }
  }

  /** Parsing a printed address and port gives both back, unless the port is 0. */
  lemma PairRoundTrip(ip: Ipv4, port: u16)
    ensures ParsePair(PairText(ip, port)) == if port == 0 then None else Some((ip, port))
    ensures Lacks(PairText(ip, port), '@')
  {
    hide NatText, Ipv4Text, ParseIpv4, ParseU16, SplitOn, Find, Trim, UpTo;
    var address, digits := Ipv4Text(ip), NatText(port);
    var s := PairText(ip, port);
    AddressText(ip);
    PlainAddressChars(s);
    SplitAtFirst(address, ':', digits);
    DigitsLack(digits, ':');
    SplitWithout(digits, ':');
    PlainAddressChars(address);
    PlainAddressChars(digits);
    Ipv4RoundTrip(ip);
    PortRoundTrip(port);
  }

  // ----- Endpoints -----

  datatype ProxyAuth = ProxyAuth(username: string, password: string)

  datatype Proxy = Proxy(ip: Ipv4, port: u16, expected: seq<Protocol>, auth: Option<ProxyAuth>)

  datatype Scheme = HttpScheme | HttpsScheme | Socks4Scheme | Socks5Scheme

  function SchemeText(scheme: Scheme): string {
    match scheme
    case HttpScheme => "http"
    case HttpsScheme => "https"
    case Socks4Scheme => "socks4"
    case Socks5Scheme => "socks5"
  }

  function ProtocolOf(scheme: Scheme): Protocol {
    match scheme
    case HttpScheme => Http(Unknown)
    case HttpsScheme => Https(Unknown)
    case Socks4Scheme => Socks4
    case Socks5Scheme => Socks5
  }

  /** `protocol_from_str`. */
  function ProtocolFromStr(raw: string): Option<Protocol> {
    match LowerText(Trim(raw))
    case "http" => Some(Http(Unknown))
    case "https" => Some(Https(Unknown))
    case "ssl" => Some(Https(Unknown))
    case "socks4" => Some(Socks4)
    case "socks5" => Some(Socks5)
    case _ => None
  }

  /** The scheme `s` starts with, and what follows it. */
  function StripScheme(s: string): (Option<string>, string) {
    if "http://" <= s then (Some("http"), s[7..])
    else if "https://" <= s then (Some("https"), s[8..])
    else if "socks4://" <= s then (Some("socks4"), s[9..])
    else if "socks5://" <= s then (Some("socks5"), s[9..])
    else (None, s)
  }

  /** Index of the last `c`. */
  function LastIndex(s: string, c: char): (r: Option<nat>)
    ensures r.Some? ==> r.value < |s| && s[r.value] == c
  {
    if s == "" then None
    else if s[|s| - 1] == c then Some(|s| - 1)
    else LastIndex(s[..|s| - 1], c)
  }

  /** `FromStr for Proxy`. */
  function ParseProxy(text: string): Option<Proxy> {
    var s := Trim(text);
    var (scheme, rest) := StripScheme(s);
    var at := LastIndex(rest, '@');
    if at == Some(0) then None
    else
      var endpoint := if at.Some? then rest[at.value + 1..] else rest;
      var (ip, port) :- ParsePair(endpoint);
      var expected := match scheme
                      case None => []
                      case Some(name) =>
                        match ProtocolFromStr(name) case None => [] case Some(p) => [p];
      if at.None? then Some(Proxy(ip, port, expected, None))
      else
        var auth := ParseUserinfo(rest[..at.value]);
        if auth.username == "" then None else Some(Proxy(ip, port, expected, Some(auth)))
  }

  function ParseUserinfo(userinfo: string): ProxyAuth {
    match Find(userinfo, ":", 0)
    case Some(i) => ProxyAuth(userinfo[..i], userinfo[i + 1..])
    case None => ProxyAuth(userinfo, "")
  }

  lemma {:induction false} LastIndexBehind(head: string, c: char, tail: string)
    requires Lacks(tail, c)
    ensures LastIndex(head + [c] + tail, c) == Some(|head|)
  {
    var s := head + [c] + tail;
    if tail != "" {
      LastIndexBehind(head, c, tail[..|tail| - 1]);
      assert s[..|s| - 1] == head + [c] + tail[..|tail| - 1];
    }
  }

  lemma {:induction false} LastIndexNowhere(s: string, c: char)
    requires Lacks(s, c)
    ensures LastIndex(s, c) == None
  {
    if s != "" {
      LastIndexNowhere(s[..|s| - 1], c);
    }
  }

  lemma SchemeRead(scheme: Scheme, rest: string)
    ensures StripScheme(SchemeText(scheme) + "://" + rest) == (Some(SchemeText(scheme)), rest)
    ensures ProtocolFromStr(SchemeText(scheme)) == Some(ProtocolOf(scheme))
  {
    hide TrimStart, TrimEnd;
    var name := SchemeText(scheme);
    var s := name + "://" + rest;
    TrimmedAlready(name);
    assert LowerText(name) == name;
    assert s[4] == (if scheme == HttpScheme then ':' else if scheme == HttpsScheme then 's' else 's');
    assert s[..|name| + 3] == name + "://" && s[|name| + 3..] == rest;
    assert scheme.Socks4Scheme? || scheme.Socks5Scheme? ==> s[0] == 's' && s[5] == name[5];
  }

  lemma UserinfoRead(user: string, password: string)
    requires Lacks(user, ':')
    ensures ParseUserinfo(user + ":" + password) == ProxyAuth(user, password)
  {
    SplitAtFirst(user, ':', password);
    var s := user + ":" + password;
    assert s[..|user|] == user && s[|user| + 1..] == password;
  }

  /** A user and a password are told apart again exactly when the user holds no colon. */
  lemma UserinfoSplits(user: string, password: string)
    ensures ParseUserinfo(user + ":" + password) == ProxyAuth(user, password) <==> Lacks(user, ':')
  {
    if Lacks(user, ':') {
      UserinfoRead(user, password);
    } else {
      var s := user + ":" + password;
      var i :| 0 <= i < |user| && user[i] == ':';
      assert s[i..i + 1] == ":";
      assert OccursAt(s, ":", i);
    }
  }

  lemma UserinfoUser(user: string, password: string)
    requires user == ""
    ensures ParseUserinfo(user + ":" + password).username == ""
  {
    UserinfoRead(user, password);
  }

  /** `scheme://user:pass@ip:port`. */
  function EndpointText(scheme: Scheme, auth: ProxyAuth, ip: Ipv4, port: u16): string {
    SchemeText(scheme) + "://" + (auth.username + ":" + auth.password + "@" + PairText(ip, port))
  }

  /** `scheme://user:pass@ip:port` gives every part back, whatever the password holds, exactly when
      the user is not empty and holds no colon and the port is not 0. */
  lemma {:induction false} AuthenticatedRoundTrip(scheme: Scheme, auth: ProxyAuth, ip: Ipv4, port: u16)
    ensures ParseProxy(EndpointText(scheme, auth, ip, port)) == Some(Proxy(ip, port, [ProtocolOf(scheme)], Some(auth)))
       <==> auth.username != "" && Lacks(auth.username, ':') && port != 0
    ensures auth.username == "" || port == 0 ==> ParseProxy(EndpointText(scheme, auth, ip, port)) == None
  {
    hide Trim, StripScheme, LastIndex, ParsePair, PairText, ProtocolFromStr, ParseUserinfo, SchemeText, Lacks;
    var pair, userinfo := PairText(ip, port), auth.username + ":" + auth.password;
    var rest := userinfo + "@" + pair;
    PairRoundTrip(ip, port);
    EndpointIsTrimmed(scheme, userinfo + "@", ip, port);
    SchemeRead(scheme, rest);
    LastIndexBehind(userinfo, '@', pair);
    assert rest[..|userinfo|] == userinfo && rest[|userinfo| + 1..] == pair;
    UserinfoSplits(auth.username, auth.password);
    if auth.username == "" {
      UserinfoUser(auth.username, auth.password);
    }
  }

  /** `scheme://ip:port` has no credentials. */
  lemma {:induction false} PlainRoundTrip(scheme: Scheme, ip: Ipv4, port: u16)
    ensures ParseProxy(SchemeText(scheme) + "://" + PairText(ip, port))
         == if port == 0 then None else Some(Proxy(ip, port, [ProtocolOf(scheme)], None))
  {
    hide Trim, StripScheme, LastIndex, ParsePair, PairText, ProtocolFromStr, SchemeText;
    PairRoundTrip(ip, port);
    EndpointIsTrimmed(scheme, "", ip, port);
    assert "" + PairText(ip, port) == PairText(ip, port);
    SchemeRead(scheme, PairText(ip, port));
    LastIndexNowhere(PairText(ip, port), '@');
  }

  /** A bare `ip:port` has neither scheme nor credentials. */
  lemma BareRoundTrip(ip: Ipv4, port: u16)
    ensures ParseProxy(PairText(ip, port)) == if port == 0 then None else Some(Proxy(ip, port, [], None))
  {
    hide Trim, LastIndex, ParsePair, NatText, Ipv4Text, ProtocolFromStr;
    var s := PairText(ip, port);
    PairRoundTrip(ip, port);
    AddressText(ip);
    TrimmedAlready(s);
    assert IsDigit(s[0]);
    LastIndexNowhere(s, '@');
  }

  lemma EndpointIsTrimmed(scheme: Scheme, userinfo: string, ip: Ipv4, port: u16)
    ensures var s := SchemeText(scheme) + "://" + (userinfo + PairText(ip, port)); Trim(s) == s
  {
    hide NatText, Ipv4Text;
    var s := SchemeText(scheme) + "://" + (userinfo + PairText(ip, port));
    var digits := NatText(port);
    assert s[|s| - 1] == digits[|digits| - 1];
    assert s[0] == SchemeText(scheme)[0];
    TrimmedAlready(s);
  }

  // ----- Lines around an endpoint -----

  predicate AllWhitespace(s: string) {
    forall i :: 0 <= i < |s| ==> IsWhitespace(s[i])
  }

  lemma {:induction false} TrimStartKeeps(before: string, rest: string)
    requires AllWhitespace(before) && rest != "" && !IsWhitespace(rest[0])
    ensures TrimStart(before + rest) == rest
  {
    if before == "" {
      assert before + rest == rest;
    } else {
      TrimStartKeeps(before[1..], rest);
      assert (before + rest)[1..] == before[1..] + rest;
    }
  }

  lemma {:induction false} TrimEndKeeps(core: string, tail: string) returns (kept: string)
    requires core != "" && !IsWhitespace(core[|core| - 1])
    ensures kept <= tail && AllWhitespace(tail[|kept|..]) && TrimEnd(core + tail) == core + kept
    decreases |tail|
  {
    var s := core + tail;
    if tail == "" || !IsWhitespace(tail[|tail| - 1]) {
      kept := tail;
      assert TrimEnd(s) == s;
    } else {
      var init := tail[..|tail| - 1];
      assert s[..|s| - 1] == core + init;
      kept := TrimEndKeeps(core, init);
      forall i | 0 <= i < |tail[|kept|..]| ensures IsWhitespace(tail[|kept|..][i]) {
        if i < |init| - |kept| {
          assert tail[|kept|..][i] == init[|kept|..][i];
        }
      }
    }
  }

  /** Trimming takes white space off both ends and nothing else. */
  lemma TrimKeeps(before: string, core: string, tail: string) returns (kept: string)
    requires AllWhitespace(before) && core != "" && !IsWhitespace(core[0]) && !IsWhitespace(core[|core| - 1])
    ensures kept <= tail && AllWhitespace(tail[|kept|..]) && Trim(before + core + tail) == core + kept
  {
    TrimStartKeeps(before, core + tail);
    Assoc(before, core, tail);
    kept := TrimEndKeeps(core, tail);
  }

  predicate HasNone(s: string, stops: string) {
    forall i :: 0 <= i < |s| ==> s[i] !in stops
  }

  lemma {:induction false} UpToStop(core: string, rest: string, stops: string)
    requires HasNone(core, stops)
    ensures UpTo(core + rest, stops) == core + UpTo(rest, stops)
  {
    if core == "" {
      assert core + rest == rest;
    } else {
      UpToStop(core[1..], rest, stops);
      assert (core + rest)[1..] == core[1..] + rest;
    }
  }

  lemma {:induction false} UpToIsPrefix(s: string, stops: string)
    ensures UpTo(s, stops) <= s
    ensures s != "" && s[0] !in stops ==> UpTo(s, stops) != ""
  {
    if s != "" && s[0] !in stops {
      UpToIsPrefix(s[1..], stops);
    }
  }

  /** How the rest of a line may begin behind a bare endpoint: a separator, or two slashes. */
  predicate EndsBare(tail: string) {
    tail == "" || tail[0] in " \t#,|" || "//" <= tail
  }

  lemma PairChars(ip: Ipv4, port: u16)
    ensures var s := PairText(ip, port);
            && s != "" && IsDigit(s[0]) && IsDigit(s[|s| - 1])
            && (forall i :: 0 <= i < |s| ==> AddressChar(s[i]))
            && HasNone(s, " \t#,|") && HasNone(s, "/?") && Trim(s) == s
  {
    hide NatText, Ipv4Text, Trim;
    AddressText(ip);
    TrimmedAlready(PairText(ip, port));
  }

  lemma NoSlashBefore(s: string, rest: string)
    requires forall i :: 0 <= i < |s| ==> s[i] != '/'
    requires "//" <= rest
    ensures Find(s + rest, "//", 0) == Some(|s|)
  {
    var all := s + rest;
    assert all[|s|..|s| + 2] == rest[..2] == "//";
    assert OccursAt(all, "//", |s|);
    forall i: nat | i < |s| ensures !OccursAt(all, "//", i) {
      if i + 2 <= |all| {
        assert all[i..i + 2][0] == s[i];
      }
    }
  }

  lemma NoSlashesAtAll(s: string)
    requires forall i :: 0 <= i < |s| ==> s[i] != '/'
    ensures Find(s, "//", 0).None?
  {
    forall i: nat ensures !OccursAt(s, "//", i) {
      if i + 2 <= |s| {
        assert s[i..i + 2][0] == s[i];
      }
    }
  }

  /** A bare endpoint is found at the beginning of a line, behind white space, whatever stands behind it
      after a separator or two slashes. */
  lemma BareEndpointInLine(before: string, ip: Ipv4, port: u16, tail: string)
    requires AllWhitespace(before) && EndsBare(tail) && port != 0
    ensures ParsePair(before + PairText(ip, port) + tail) == Some((ip, port))
  {
    hide NatText, Ipv4Text, ParseIpv4, ParseU16, SplitOn, Find, Trim, UpTo, PairText, IsWhitespace;
    var pair := PairText(ip, port);
    PairChars(ip, port);
    DigitsAreVisible(pair);
    var kept := TrimKeeps(before, pair, tail);
    KeptBegins(tail, kept);
    UpToStop(pair, kept, " \t#,|");
    if "//" <= kept {
      UpToSlashes(kept);
      var head := pair + UpTo(kept, " \t#,|");
      var more := TrimKeeps("", pair, UpTo(kept, " \t#,|"));
      KeptBegins(UpTo(kept, " \t#,|"), more);
      assert "" + pair + UpTo(kept, " \t#,|") == head;
      NoSlashBefore(pair, more);
      assert (pair + more)[..|pair|] == pair && (pair + more)[|pair| - 1] == pair[|pair| - 1];
      SamePair(ip, port);
    } else {
      UpToEmpty(kept);
      assert pair + "" == pair;
      SamePair(ip, port);
    }
  }

  lemma DigitsAreVisible(s: string)
    requires s != "" && IsDigit(s[0]) && IsDigit(s[|s| - 1])
    ensures !IsWhitespace(s[0]) && !IsWhitespace(s[|s| - 1])
  {
  }

  lemma KeptBegins(tail: string, kept: string)
    requires kept <= tail && AllWhitespace(tail[|kept|..])
    ensures "//" <= tail ==> "//" <= kept
    ensures kept != "" ==> kept[0] == tail[0]
  {
    if |kept| < |tail| {
      assert tail[|kept|..][0] == tail[|kept|];
    }
  }

  lemma UpToSlashes(s: string)
    requires "//" <= s
    ensures "//" <= UpTo(s, " \t#,|")
  {
    assert s[0] == '/' && s[1] == '/' && s[1..][0] == '/';
    assert UpTo(s, " \t#,|") == [s[0]] + UpTo(s[1..], " \t#,|");
    assert UpTo(s[1..], " \t#,|") == [s[1]] + UpTo(s[1..][1..], " \t#,|");
  }

  lemma UpToEmpty(s: string)
    requires s == "" || s[0] in " \t#,|"
    ensures UpTo(s, " \t#,|") == ""
  {
  }

  /** What `ParsePair` makes of a head that is the endpoint. */
  lemma SamePair(ip: Ipv4, port: u16)
    requires port != 0
    ensures var pair := PairText(ip, port);
            && Trim(pair) == pair && WithoutUrl(pair) == pair
            && var fields := SplitOn(pair, ":");
               && |fields| >= 2 && ParseIpv4(Trim(fields[0])) == Some(ip) && ParseU16(Trim(fields[1])) == Some(port)
  {
    hide NatText, Ipv4Text, ParseIpv4, ParseU16, SplitOn, Find, Trim, UpTo;
    var address, digits := Ipv4Text(ip), NatText(port);
    AddressText(ip);
    PlainAddressChars(PairText(ip, port));
    SplitAtFirst(address, ':', digits);
    DigitsLack(digits, ':');
    SplitWithout(digits, ':');
    PlainAddressChars(address);
    PlainAddressChars(digits);
    Ipv4RoundTrip(ip);
    PortRoundTrip(port);
  }

  /** A scheme in front of an endpoint, in the sense of a URL. */
  predicate SchemeName(scheme: string) {
    forall i :: 0 <= i < |scheme| ==> scheme[i] != '/' && scheme[i] !in " \t#,|" && !IsWhitespace(scheme[i])
  }

  /** How the rest may begin behind an endpoint with a scheme: a path or a query, or a separator. */
  predicate EndsUrl(tail: string) {
    tail == "" || tail[0] in "/?" || tail[0] in " \t#,|"
  }

  /** The first field of such a line: the URL, with as much of its path as white space leaves. */
  lemma UrlHead(before: string, core: string, tail: string) returns (left: string)
    requires AllWhitespace(before) && EndsUrl(tail) && HasNone(core, " \t#,|")
    requires core != "" && !IsWhitespace(core[0]) && !IsWhitespace(core[|core| - 1])
    ensures Trim(UpTo(Trim(before + core + tail), " \t#,|")) == core + left
    ensures left == "" || left[0] in "/?"
  {
    hide Trim, UpTo, IsWhitespace;
    var kept := TrimKeeps(before, core, tail);
    KeptBegins(tail, kept);
    UpToStop(core, kept, " \t#,|");
    var path := UpTo(kept, " \t#,|");
    UpToIsPrefix(kept, " \t#,|");
    left := TrimKeeps("", core, path);
    assert "" + core + path == core + path;
    KeptBegins(path, left);
    if left != "" {
      VisibleOrStop(kept);
    }
  }

  /** Scheme and path are taken off. */
  lemma UrlPair(scheme: string, pair: string, left: string)
    requires SchemeName(scheme) && HasNone(pair, "/?") && (left == "" || left[0] in "/?")
    ensures WithoutUrl(scheme + "://" + pair + left) == pair
  {
    hide Find, UpTo, IsWhitespace;
    var head := scheme + "://" + pair + left;
    NoSlashBefore(scheme + ":", "//" + pair + left);
    assert scheme + ":" + ("//" + pair + left) == head;
    assert head[|scheme|] == ':' && head[|scheme| + 3..] == pair + left;
    UpToStop(pair, left, "/?");
    UpToPath(left);
    assert pair + "" == pair;
  }

  /** An endpoint is found behind any scheme, whatever path, query or comment stands behind it. */
  lemma UrlInLine(before: string, scheme: string, ip: Ipv4, port: u16, tail: string)
    requires AllWhitespace(before) && SchemeName(scheme) && EndsUrl(tail) && port != 0
    ensures ParsePair(before + (scheme + "://" + PairText(ip, port)) + tail) == Some((ip, port))
  {
    hide NatText, Ipv4Text, ParseIpv4, ParseU16, SplitOn, Find, Trim, UpTo, PairText, IsWhitespace, WithoutUrl;
    var pair := PairText(ip, port);
    var core := scheme + "://" + pair;
    PairChars(ip, port);
    DigitsAreVisible(pair);
    ColonIsVisible();
    assert core[|core| - 1] == pair[|pair| - 1];
    assert core[0] == if scheme == "" then ':' else scheme[0];
    var left := UrlHead(before, core, tail);
    UrlPair(scheme, pair, left);
    SamePair(ip, port);
  }

  lemma ColonIsVisible()
    ensures !IsWhitespace(':')
  {
  }

  lemma VisibleOrStop(s: string)
    requires UpTo(s, " \t#,|") != ""
    ensures s != "" && s[0] !in " \t#,|"
  {
  }

  lemma UpToPath(s: string)
    requires s == "" || s[0] in "/?"
    ensures UpTo(s, "/?") == ""
  {
  }

  /** Further fields behind the port are ignored. */
  lemma FurtherFields(ip: Ipv4, port: u16, more: string)
    requires port != 0 && SchemeName(more)
    ensures ParsePair(PairText(ip, port) + ":" + more) == Some((ip, port))
  {
    hide NatText, Ipv4Text, ParseIpv4, ParseU16, SplitOn, Find, Trim, UpTo, IsWhitespace;
    var address, digits, s := Ipv4Text(ip), NatText(port), PairText(ip, port) + ":" + more;
    AddressText(ip);
    PlainAddressChars(address);
    PlainAddressChars(digits);
    DigitsAreVisible(address);
    ColonIsVisible();
    TrimmedAlready(s);
    PairChars(ip, port);
    assert HasNone(s, " \t#,|");
    UpToNothing(s, " \t#,|");
    assert forall i :: 0 <= i < |s| ==> s[i] != '/';
    NoSlashesAtAll(s);
    assert s == address + [':'] + (digits + ":" + more);
    SplitAtFirst(address, ':', digits + ":" + more);
    DigitsLack(digits, ':');
    SplitAtFirst(digits, ':', more);
    Ipv4RoundTrip(ip);
    PortRoundTrip(port);
  }

  /** `scheme://user@ip:port` has an empty password. */
  lemma UserWithoutPassword(scheme: Scheme, user: string, ip: Ipv4, port: u16)
    requires user != "" && Lacks(user, ':') && port != 0
    ensures ParseProxy(SchemeText(scheme) + "://" + (user + "@" + PairText(ip, port)))
         == Some(Proxy(ip, port, [ProtocolOf(scheme)], Some(ProxyAuth(user, ""))))
  {
    hide Trim, StripScheme, LastIndex, ParsePair, PairText, ProtocolFromStr, SchemeText, Lacks, Find;
    var pair := PairText(ip, port);
    var rest := user + "@" + pair;
    PairRoundTrip(ip, port);
    EndpointIsTrimmed(scheme, user + "@", ip, port);
    SchemeRead(scheme, rest);
    LastIndexBehind(user, '@', pair);
    assert rest[..|user|] == user && rest[|user| + 1..] == pair;
    SplitWithout(user, ':');
  }

  /** `scheme://@ip:port` is refused. */
  lemma EmptyUserinfo(scheme: Scheme, ip: Ipv4, port: u16)
    ensures ParseProxy(SchemeText(scheme) + "://" + ("@" + PairText(ip, port))) == None
  {
    hide Trim, StripScheme, LastIndex, ParsePair, PairText, ProtocolFromStr, SchemeText, Lacks, Find;
    var pair := PairText(ip, port);
    PairRoundTrip(ip, port);
    EndpointIsTrimmed(scheme, "@", ip, port);
    SchemeRead(scheme, "@" + pair);
    LastIndexBehind("", '@', pair);
    assert "" + ['@'] + pair == "@" + pair;
  }

  /** Levels are read in any letter case, with white space around them. */
  lemma LevelInAnyCase(before: string, level: string, after: string)
    requires AllWhitespace(before) && AllWhitespace(after)
    ensures EqIgnoreCase(level, "elite") ==> ParseAnonymity(Some(before + level + after)) == Some(Elite)
    ensures EqIgnoreCase(level, "anonymous") ==> ParseAnonymity(Some(before + level + after)) == Some(Anonymous)
    ensures EqIgnoreCase(level, "transparent") ==> ParseAnonymity(Some(before + level + after)) == Some(Transparent)
  {
    hide Trim, Lower;
    if EqIgnoreCase(level, "elite") || EqIgnoreCase(level, "anonymous") || EqIgnoreCase(level, "transparent") {
      LettersAreVisible(level);
      var kept := TrimKeeps(before, level, after);
      AllTrimmed(before, level, after);
    }
  }

  lemma LettersAreVisible(level: string)
    requires EqIgnoreCase(level, "elite") || EqIgnoreCase(level, "anonymous") || EqIgnoreCase(level, "transparent")
    ensures level != "" && !IsWhitespace(level[0]) && !IsWhitespace(level[|level| - 1])
  {
  }

  lemma {:induction false} TrimEndAll(core: string, after: string)
    requires core != "" && !IsWhitespace(core[|core| - 1]) && AllWhitespace(after)
    ensures TrimEnd(core + after) == core
    decreases |after|
  {
    if after == "" {
      assert core + after == core;
    } else {
      TrimEndAll(core, after[..|after| - 1]);
      assert (core + after)[..|core + after| - 1] == core + after[..|after| - 1];
    }
  }

  lemma AllTrimmed(before: string, core: string, after: string)
    requires AllWhitespace(before) && AllWhitespace(after)
    requires core != "" && !IsWhitespace(core[0]) && !IsWhitespace(core[|core| - 1])
    ensures Trim(before + core + after) == core
  {
    TrimStartKeeps(before, core + after);
    Assoc(before, core, after);
    TrimEndAll(core, after);
  }

  /** How protocols are written. */
  lemma ProtocolTexts(port: u16)
    ensures ProtocolText(Http(Unknown)) == "HTTP" && ProtocolText(Https(Unknown)) == "HTTPS"
    ensures ProtocolText(Http(Elite)) == "HTTP: Elite" && ProtocolText(Https(Elite)) == "HTTPS: Elite"
    ensures ProtocolText(Http(Anonymous)) == "HTTP: Anonymous" && ProtocolText(Https(Anonymous)) == "HTTPS: Anonymous"
    ensures ProtocolText(Http(Transparent)) == "HTTP: Transparent"
    ensures ProtocolText(Https(Transparent)) == "HTTPS: Transparent"
    ensures ProtocolText(Socks4) == "SOCKS4" && ProtocolText(Socks5) == "SOCKS5"
    ensures ProtocolText(Connect(port)) == "CONNECT:" + NatText(port)
  {
    hide NatText;
  }
}
