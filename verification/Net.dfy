/** Parsing and printing of IPv4 addresses and ports, as the standard library does it. */
module Net {
  import opened Wrappers
  import opened Text

  /** An octet: one decimal numeral below 256, with no leading zero. */
  function ParseOctet(s: string): Option<byte> {
    if s == "" || !AllDigits(s) || (s[0] == '0' && |s| > 1) || DigitsValue(s) > 255 then None
    else Some(DigitsValue(s))
  }

  function ParseIpv4(s: string): Option<Ipv4> {
    var fields := SplitOn(s, ".");
    if |fields| != 4 then None
    else
      var a :- ParseOctet(fields[0]);
      var b :- ParseOctet(fields[1]);
      var c :- ParseOctet(fields[2]);
      var d :- ParseOctet(fields[3]);
      Some(Ipv4(a, b, c, d))
  }

  function Ipv4Text(ip: Ipv4): string {
    NatText(ip.a) + "." + NatText(ip.b) + "." + NatText(ip.c) + "." + NatText(ip.d)
  }

  /** A 16-bit numeral; a plus sign is allowed in front. */
  function ParseU16(s: string): Option<u16> {
    var digits := if s != "" && s[0] == '+' then s[1..] else s;
    if digits == "" || !AllDigits(digits) || DigitsValue(digits) > 0xFFFF then None
    else Some(DigitsValue(digits))
  }

  lemma OctetRoundTrip(b: byte)
    ensures ParseOctet(NatText(b)) == Some(b)
  {
    DigitsValueOfNatText(b);
  }

  lemma PortRoundTrip(port: u16)
    ensures ParseU16(NatText(port)) == Some(port)
  {
    DigitsValueOfNatText(port);
    assert IsDigit(NatText(port)[0]);
  }

  predicate Lacks(s: string, c: char) {
    forall i :: 0 <= i < |s| ==> s[i] != c
  }

  lemma DigitsLack(s: string, c: char)
    requires AllDigits(s) && !IsDigit(c)
    ensures Lacks(s, c)
  {
  }

  /** The first occurrence of a separator character splits a string. */
  lemma SplitAtFirst(head: string, c: char, rest: string)
    requires Lacks(head, c)
    ensures SplitOn(head + [c] + rest, [c]) == [head] + SplitOn(rest, [c])
    ensures Find(head + [c] + rest, [c], 0) == Some(|head|)
  {
    var text := head + [c] + rest;
    assert text[|head|..|head| + 1] == [c];
    assert OccursAt(text, [c], |head|);
    forall i: nat | i < |head| ensures !OccursAt(text, [c], i) {
      assert text[i..i + 1][0] == head[i];
    }
    assert text[..|head|] == head;
    assert text[|head| + 1..] == rest;
  }

  lemma SplitWithout(text: string, c: char)
    requires Lacks(text, c)
    ensures SplitOn(text, [c]) == [text]
    ensures Find(text, [c], 0) == None
  {
    forall i: nat ensures !OccursAt(text, [c], i) {
      if i < |text| {
        assert text[i..i + 1][0] == text[i];
      }
    }
  }

  lemma Ipv4RoundTrip(ip: Ipv4)
    ensures ParseIpv4(Ipv4Text(ip)) == Some(ip)
  {
    hide NatText, ParseOctet, SplitOn, Find;
    var a, b, c, d := NatText(ip.a), NatText(ip.b), NatText(ip.c), NatText(ip.d);
    OctetRoundTrip(ip.a);
    OctetRoundTrip(ip.b);
    OctetRoundTrip(ip.c);
    OctetRoundTrip(ip.d);
    SplitWithout(d, '.');
    SplitAtFirst(c, '.', d);
    SplitAtFirst(b, '.', c + "." + d);
    SplitAtFirst(a, '.', b + "." + c + "." + d);
    assert b + "." + (c + "." + d) == b + "." + c + "." + d;
    assert Ipv4Text(ip) == a + "." + (b + "." + c + "." + d);
  }

  /** How addresses and ports are written. */
  lemma Examples()
    ensures Ipv4Text(Ipv4(192, 168, 0, 10)) == "192.168.0.10" && NatText(65535) == "65535"
  {
    assert NatText(19) == "19" && NatText(16) == "16";
    assert NatText(192) == "192" && NatText(168) == "168" && NatText(0) == "0" && NatText(10) == "10";
    assert NatText(65) == "65";
    assert NatText(655) == "655";
    assert NatText(6553) == "6553";
  }
}
