/** The standard, padded alphabet of RFC 4648 section 4, decoded strictly: the padding must be there
    and the unused bits of the last sextet must be zero. */
module Base64 {
  import opened Wrappers

  function Sextet(c: char): (r: Option<int>)
    ensures r.Some? ==> 0 <= r.value < 64
  {
    if 'A' <= c <= 'Z' then Some(c as int - 'A' as int)
    else if 'a' <= c <= 'z' then Some(26 + (c as int - 'a' as int))
    else if '0' <= c <= '9' then Some(52 + (c as int - '0' as int))
    else if c == '+' then Some(62)
    else if c == '/' then Some(63)
    else None
  }

  function Letter(x: int): (c: char)
    requires 0 <= x < 64
    ensures Sextet(c) == Some(x) && c != '='
  {
    if x < 26 then ('A' as int + x) as char
    else if x < 52 then ('a' as int + (x - 26)) as char
    else if x < 62 then ('0' as int + (x - 52)) as char
    else if x == 62 then '+' else '/'
  }

  function Decode(s: string): (r: Option<seq<byte>>)
    ensures r.Some? ==> |r.value| <= |s|
  {
    if s == "" then Some([])
    else if |s| < 4 then None
    else
      var a :- Sextet(s[0]);
      var b :- Sextet(s[1]);
      if |s| == 4 && s[2] == '=' && s[3] == '=' then
        if b % 16 == 0 then Some([a * 4 + b / 16]) else None
      else
        var c :- Sextet(s[2]);
        if |s| == 4 && s[3] == '=' then
          if c % 4 == 0 then Some([a * 4 + b / 16, b % 16 * 16 + c / 4]) else None
        else
          var d :- Sextet(s[3]);
          var rest :- Decode(s[4..]);
          Some([a * 4 + b / 16, b % 16 * 16 + c / 4, c % 4 * 64 + d] + rest)
  }

  function Encode(bs: seq<byte>): string {
    if bs == [] then ""
    else if |bs| == 1 then [Letter(bs[0] / 4), Letter(bs[0] % 4 * 16), '=', '=']
    else if |bs| == 2 then
      [Letter(bs[0] / 4), Letter(bs[0] % 4 * 16 + bs[1] / 16), Letter(bs[1] % 16 * 4), '=']
    else
      [Letter(bs[0] / 4), Letter(bs[0] % 4 * 16 + bs[1] / 16),
       Letter(bs[1] % 16 * 4 + bs[2] / 64), Letter(bs[2] % 64)] + Encode(bs[3..])
  }

  lemma OneByte(bs: seq<byte>)
    requires |bs| == 1
    ensures Decode(Encode(bs)) == Some(bs)
  {
    hide Letter, Sextet;
    assert Encode(bs)[0] == Letter(bs[0] / 4) && Encode(bs)[1] == Letter(bs[0] % 4 * 16);
    assert bs == [bs[0]];
  }

  lemma TwoBytes(bs: seq<byte>)
    requires |bs| == 2
    ensures Decode(Encode(bs)) == Some(bs)
  {
    hide Letter, Sextet;
    var e := Encode(bs);
    assert e[0] == Letter(bs[0] / 4) && e[1] == Letter(bs[0] % 4 * 16 + bs[1] / 16);
    assert e[2] == Letter(bs[1] % 16 * 4) && e[3] == '=';
    var b, c := bs[0] % 4 * 16 + bs[1] / 16, bs[1] % 16 * 4;
    assert b / 16 == bs[0] % 4 && b % 16 == bs[1] / 16 && c % 4 == 0 && c / 4 == bs[1] % 16;
    assert bs == [bs[0], bs[1]];
  }

  lemma {:induction false} DecodeEncode(bs: seq<byte>)
    ensures Decode(Encode(bs)) == Some(bs)
  {
    hide Letter, Sextet;
    if |bs| == 1 {
      OneByte(bs);
    } else if |bs| == 2 {
      TwoBytes(bs);
    } else if |bs| >= 3 {
      DecodeEncode(bs[3..]);
      FirstThree(bs);
    }
  }

  lemma Sextets(x: byte, y: byte, z: byte)
    ensures x / 4 * 4 + (x % 4 * 16 + y / 16) / 16 == x
    ensures (x % 4 * 16 + y / 16) % 16 * 16 + (y % 16 * 4 + z / 64) / 4 == y
    ensures (y % 16 * 4 + z / 64) % 4 * 64 + z % 64 == z
  {
  }

  lemma FirstThree(bs: seq<byte>)
    requires |bs| >= 3 && Decode(Encode(bs[3..])) == Some(bs[3..])
    ensures Decode(Encode(bs)) == Some(bs)
  {
    hide Letter, Sextet, Decode;
    var e := Encode(bs);
    assert e[4..] == Encode(bs[3..]);
    Sextets(bs[0], bs[1], bs[2]);
    ThreeBytes(bs, e, bs[0] / 4, bs[0] % 4 * 16 + bs[1] / 16, bs[1] % 16 * 4 + bs[2] / 64, bs[2] % 64);
  }

  lemma ThreeBytes(bs: seq<byte>, s: string, a: int, b: int, c: int, d: int)
    requires 0 <= a < 64 && 0 <= b < 64 && 0 <= c < 64 && 0 <= d < 64 && |s| >= 4 && |bs| >= 3
    requires s[0] == Letter(a) && s[1] == Letter(b) && s[2] == Letter(c) && s[3] == Letter(d)
    requires Decode(s[4..]) == Some(bs[3..])
    requires a * 4 + b / 16 == bs[0] && b % 16 * 16 + c / 4 == bs[1] && c % 4 * 64 + d == bs[2]
    ensures Decode(s) == Some(bs)
  {
    hide Letter, Sextet, Decode;
    DecodeFour(s, a, b, c, d);
    assert [bs[0], bs[1], bs[2]] + bs[3..] == bs;
  }

  lemma DecodeFour(s: string, a: int, b: int, c: int, d: int)
    requires 0 <= a < 64 && 0 <= b < 64 && 0 <= c < 64 && 0 <= d < 64 && |s| >= 4
    requires s[0] == Letter(a) && s[1] == Letter(b) && s[2] == Letter(c) && s[3] == Letter(d)
    requires Decode(s[4..]).Some?
    ensures Decode(s) == Some([a * 4 + b / 16, b % 16 * 16 + c / 4, c % 4 * 64 + d] + Decode(s[4..]).value)
  {
    hide Letter, Sextet;
  }

  // ----- Only encodings decode -----

  lemma LetterOfSextet(c: char)
    requires Sextet(c).Some?
    ensures Letter(Sextet(c).value) == c
  {
  }

  lemma TwoLetters(s: string)
    requires |s| == 4 && s[2] == s[3] == '=' && Decode(s).Some?
    ensures Encode(Decode(s).value) == s
  {
    hide Letter, Sextet;
    LetterOfSextet(s[0]);
    LetterOfSextet(s[1]);
    var a, b := Sextet(s[0]).value, Sextet(s[1]).value;
    var x := a * 4 + b / 16;
    assert x / 4 == a && x % 4 * 16 == b;
    assert s == [s[0], s[1], s[2], s[3]];
  }

  lemma ThreeLetters(s: string)
    requires |s| == 4 && s[2] != '=' && s[3] == '=' && Decode(s).Some?
    ensures Encode(Decode(s).value) == s
  {
    hide Letter, Sextet;
    LetterOfSextet(s[0]);
    LetterOfSextet(s[1]);
    LetterOfSextet(s[2]);
    var a, b, c := Sextet(s[0]).value, Sextet(s[1]).value, Sextet(s[2]).value;
    var x, y := a * 4 + b / 16, b % 16 * 16 + c / 4;
    assert Decode(s) == Some([x, y]);
    assert x / 4 == a && x % 4 * 16 + y / 16 == b && y % 16 * 4 == c;
    assert s == [s[0], s[1], s[2], s[3]];
  }

  lemma Bytes(a: int, b: int, c: int, d: int)
    requires 0 <= a < 64 && 0 <= b < 64 && 0 <= c < 64 && 0 <= d < 64
    ensures var x, y, z := a * 4 + b / 16, b % 16 * 16 + c / 4, c % 4 * 64 + d;
            0 <= x < 256 && 0 <= y < 256 && 0 <= z < 256
            && x / 4 == a && x % 4 * 16 + y / 16 == b && y % 16 * 4 + z / 64 == c && z % 64 == d
  {
  }

  lemma EncodeFour(x: byte, y: byte, z: byte, rest: seq<byte>, a: int, b: int, c: int, d: int)
    requires 0 <= a < 64 && 0 <= b < 64 && 0 <= c < 64 && 0 <= d < 64
    requires x / 4 == a && x % 4 * 16 + y / 16 == b && y % 16 * 4 + z / 64 == c && z % 64 == d
    ensures Encode([x, y, z] + rest) == [Letter(a), Letter(b), Letter(c), Letter(d)] + Encode(rest)
  {
    hide Letter, Sextet;
    assert ([x, y, z] + rest)[3..] == rest;
  }

  lemma SextetsThere(s: string)
    requires |s| >= 4 && s[3] != '=' && Decode(s).Some?
    ensures Sextet(s[0]).Some? && Sextet(s[1]).Some? && Sextet(s[2]).Some? && Sextet(s[3]).Some?
    ensures Decode(s[4..]).Some?
  {
    hide Sextet;
  }

  lemma FourLetters(s: string)
    requires |s| >= 4 && s[3] != '=' && Decode(s).Some?
    ensures Decode(s[4..]).Some?
    ensures Encode(Decode(s).value) == s[..4] + Encode(Decode(s[4..]).value)
  {
    hide Letter, Sextet, Decode, Encode;
    SextetsThere(s);
    LetterOfSextet(s[0]);
    LetterOfSextet(s[1]);
    LetterOfSextet(s[2]);
    LetterOfSextet(s[3]);
    var a, b, c, d := Sextet(s[0]).value, Sextet(s[1]).value, Sextet(s[2]).value, Sextet(s[3]).value;
    Bytes(a, b, c, d);
    DecodeFour(s, a, b, c, d);
    EncodeFour(a * 4 + b / 16, b % 16 * 16 + c / 4, c % 4 * 64 + d, Decode(s[4..]).value, a, b, c, d);
    assert s[..4] == [s[0], s[1], s[2], s[3]];
  }

  lemma PaddingEnds(s: string)
    requires |s| > 4 && Decode(s).Some?
    ensures s[3] != '='
  {
    assert Sextet('=').None?;
    hide Sextet;
  }

  /** Decoding is strict: a text that decodes is the encoding of what it decodes to. */
  lemma {:induction false} EncodeDecode(s: string)
    requires Decode(s).Some?
    ensures Encode(Decode(s).value) == s
  {
    hide Letter, Sextet, Decode, Encode;
    if s == "" {
      NothingEncoded();
    } else {
      AtLeastFour(s);
      if |s| > 4 {
        PaddingEnds(s);
      }
      if s[3] != '=' {
        FourLetters(s);
        EncodeDecode(s[4..]);
        assert s[..4] + s[4..] == s;
      } else if s[2] == '=' {
        TwoLetters(s);
      } else {
        ThreeLetters(s);
      }
    }
  }

  lemma NothingEncoded()
    ensures Decode("") == Some([]) && Encode([]) == ""
  {
  }

  lemma AtLeastFour(s: string)
    requires s != "" && Decode(s).Some?
    ensures |s| >= 4
  {
  }
}
