/** UTF-8 as defined by RFC 3629: the encoder (section 3), the byte grammar (section 4), and the
    contract of the standard library's `from_utf8`. A Rust `String` is a Dafny `string`: both are
    sequences of Unicode scalar values, and the Rust length is the length of the encoding. */
module Utf8 {
  import opened Wrappers

  // ----- Encoding -----

  function EncodeChar(c: char): (bs: seq<byte>)
    ensures 1 <= |bs| <= 4
  {
    var x := c as int;
    if x < 0x80 then [x]
    else if x < 0x800 then [0xC0 + x / 64, 0x80 + x % 64]
    else if x < 0x1_0000 then [0xE0 + x / 4096, 0x80 + x / 64 % 64, 0x80 + x % 64]
    else [0xF0 + x / 262144, 0x80 + x / 4096 % 64, 0x80 + x / 64 % 64, 0x80 + x % 64]
  }

  function Encode(s: string): seq<byte> {
    if s == [] then [] else EncodeChar(s[0]) + Encode(s[1..])
  }

  // ----- The grammar of section 4 -----

  /** Length of the sequence a lead byte announces, 0 for a byte that starts none. */
  function SequenceLength(lead: byte): nat {
    if lead < 0x80 then 1
    else if 0xC2 <= lead <= 0xDF then 2
    else if 0xE0 <= lead <= 0xEF then 3
    else if 0xF0 <= lead <= 0xF4 then 4
    else 0
  }

  predicate SecondByteFits(lead: byte, second: byte) {
    if lead == 0xE0 then 0xA0 <= second <= 0xBF
    else if lead == 0xED then 0x80 <= second <= 0x9F
    else if lead == 0xF0 then 0x90 <= second <= 0xBF
    else if lead == 0xF4 then 0x80 <= second <= 0x8F
    else 0x80 <= second <= 0xBF
  }

  /** A non-empty prefix, possibly complete, of one character's encoding. */
  predicate Plausible(bs: seq<byte>) {
    && 1 <= |bs| <= SequenceLength(bs[0])
    && (|bs| >= 2 ==> SecondByteFits(bs[0], bs[1]))
    && (|bs| >= 3 ==> 0x80 <= bs[2] <= 0xBF)
    && (|bs| >= 4 ==> 0x80 <= bs[3] <= 0xBF)
  }

  /** One complete character. */
  predicate WellFormedChar(bs: seq<byte>) {
    Plausible(bs) && |bs| == SequenceLength(bs[0])
  }

  function DecodeChar(bs: seq<byte>): (c: char)
    requires WellFormedChar(bs)
  {
    ScalarOf(bs) as char
  }

  function ScalarOf(bs: seq<byte>): (x: int)
    requires WellFormedChar(bs)
    ensures 0 <= x < 0xD800 || 0xE000 <= x < 0x11_0000
  {
    var b: seq<int> := bs;
    if |b| == 1 then b[0]
    else if |b| == 2 then (b[0] - 0xC0) * 64 + (b[1] - 0x80)
    else if |b| == 3 then (b[0] - 0xE0) * 4096 + (b[1] - 0x80) * 64 + (b[2] - 0x80)
    else (b[0] - 0xF0) * 262144 + (b[1] - 0x80) * 4096 + (b[2] - 0x80) * 64 + (b[3] - 0x80)
  }

  /** Whether `bs` begins with a complete character. */
  predicate StartsWithChar(bs: seq<byte>) {
    |bs| > 0 && SequenceLength(bs[0]) <= |bs| && WellFormedChar(bs[..SequenceLength(bs[0])])
  }

  /** The string `bs` encodes, or nothing when the grammar does not generate `bs`. */
  function Decode(bs: seq<byte>): Option<string>
    decreases |bs|
  {
    if bs == [] then Some("")
    else if !StartsWithChar(bs) then None
    else
      var n := SequenceLength(bs[0]);
      var rest :- Decode(bs[n..]);
      Some([DecodeChar(bs[..n])] + rest)
  }

  // ----- The standard library's check -----

  /** Why a buffer is not UTF-8: it ends inside a character (`error_len()` is `None`), or it holds a
      byte that no continuation can repair. */
  datatype Utf8Error = Incomplete(validUpTo: nat) | Malformed(validUpTo: nat)

  datatype Utf8Check = Text(text: string) | Bad(error: Utf8Error)

  /** Length of the longest prefix that decodes. */
  function ValidUpTo(bs: seq<byte>): (n: nat)
    ensures n <= |bs|
    decreases |bs|
  {
    if StartsWithChar(bs)
    then SequenceLength(bs[0]) + ValidUpTo(bs[SequenceLength(bs[0])..])
    else 0
  }

  function FromUtf8(bs: seq<byte>): Utf8Check {
    match Decode(bs)
    case Some(text) => Text(text)
    case None =>
      var n := ValidUpTo(bs);
      if Plausible(bs[n..]) then Bad(Incomplete(n)) else Bad(Malformed(n))
  }

  // ----- The encoder and the grammar are inverse -----

  lemma DecodeEncodeChar(c: char)
    ensures WellFormedChar(EncodeChar(c)) && DecodeChar(EncodeChar(c)) == c
  {
    var x := c as int;
    if x < 0x1_0000 {
      assert x == x / 4096 * 4096 + x / 64 % 64 * 64 + x % 64;
    } else {
      assert x == x / 262144 * 262144 + x / 4096 % 64 * 4096 + x / 64 % 64 * 64 + x % 64;
    }
  }

  lemma EncodeDecodeChar(bs: seq<byte>)
    requires WellFormedChar(bs)
    ensures EncodeChar(DecodeChar(bs)) == bs
  {
    var x := ScalarOf(bs);
    var b: seq<int> := bs;
    if |b| == 2 {
      Digits64(b[0] - 0xC0, b[1] - 0x80);
    } else if |b| == 3 {
      Digits64((b[0] - 0xE0) * 64 + (b[1] - 0x80), b[2] - 0x80);
      Digits64(b[0] - 0xE0, b[1] - 0x80);
      assert x / 4096 == x / 64 / 64;
    } else if |b| == 4 {
      Digits64((b[0] - 0xF0) * 4096 + (b[1] - 0x80) * 64 + (b[2] - 0x80), b[3] - 0x80);
      Digits64((b[0] - 0xF0) * 64 + (b[1] - 0x80), b[2] - 0x80);
      Digits64(b[0] - 0xF0, b[1] - 0x80);
      assert x / 4096 == x / 64 / 64 && x / 262144 == x / 4096 / 64;
    }
  }

  lemma Digits64(high: int, low: int)
    requires 0 <= low < 64
    ensures (high * 64 + low) / 64 == high && (high * 64 + low) % 64 == low
  {
  }

  /** A character in front of anything is read back, and what follows it is left over. */
  lemma CharThenRest(c: char, rest: seq<byte>)
    ensures var all := EncodeChar(c) + rest;
            && StartsWithChar(all)
            && SequenceLength(all[0]) == |EncodeChar(c)|
            && DecodeChar(all[..|EncodeChar(c)|]) == c
            && all[|EncodeChar(c)|..] == rest
  {
    DecodeEncodeChar(c);
    var all := EncodeChar(c) + rest;
    assert all[..|EncodeChar(c)|] == EncodeChar(c);
  }

  /** Decoding an encoded prefix yields that prefix and goes on with the rest. */
  lemma {:induction false} DecodeAfterEncoded(s: string, rest: seq<byte>)
    ensures Decode(Encode(s) + rest)
         == match Decode(rest) case None => None case Some(t) => Some(s + t)
  {
    hide EncodeChar, DecodeChar, StartsWithChar, SequenceLength;
    if s == "" {
      assert Encode(s) + rest == rest;
      if Decode(rest).Some? {
        assert s + Decode(rest).value == Decode(rest).value;
      }
    } else {
      var tail := Encode(s[1..]) + rest;
      assert Encode(s) + rest == EncodeChar(s[0]) + tail;
      CharThenRest(s[0], tail);
      DecodeAfterEncoded(s[1..], rest);
      if Decode(rest).Some? {
        assert [s[0]] + (s[1..] + Decode(rest).value) == s + Decode(rest).value;
      }
    }
  }

  lemma DecodeEncode(s: string)
    ensures Decode(Encode(s)) == Some(s)
  {
    DecodeAfterEncoded(s, []);
    assert Encode(s) + [] == Encode(s);
    assert s + "" == s;
  }

  lemma {:induction false} EncodeDecode(bs: seq<byte>)
    requires Decode(bs).Some?
    ensures Encode(Decode(bs).value) == bs
    decreases |bs|
  {
    hide EncodeChar, DecodeChar, SequenceLength;
    if bs != [] {
      var n := SequenceLength(bs[0]);
      EncodeDecodeChar(bs[..n]);
      EncodeDecode(bs[n..]);
      var s := Decode(bs).value;
      assert s[1..] == Decode(bs[n..]).value;
      assert bs[..n] + bs[n..] == bs;
    }
  }

  lemma {:induction false} EncodeConcat(s: string, t: string)
    ensures Encode(s + t) == Encode(s) + Encode(t)
  {
    if s == "" {
      assert s + t == t;
    } else {
      assert (s + t)[1..] == s[1..] + t;
      EncodeConcat(s[1..], t);
    }
  }

  /** The prefix `ValidUpTo` measures decodes, and no character starts behind it. */
  lemma {:induction false} ValidPrefixDecodes(bs: seq<byte>)
    ensures Decode(bs[..ValidUpTo(bs)]).Some?
    ensures !StartsWithChar(bs[ValidUpTo(bs)..])
    ensures Decode(bs).Some? <==> ValidUpTo(bs) == |bs|
    decreases |bs|
  {
    if StartsWithChar(bs) {
      var n := SequenceLength(bs[0]);
      var v := ValidUpTo(bs);
      ValidPrefixDecodes(bs[n..]);
      assert bs[..v][..n] == bs[..n];
      assert bs[..v][n..] == bs[n..][..v - n];
      assert bs[v..] == bs[n..][v - n..];
    }
  }

  lemma DecodeBehind(a: seq<byte>, b: seq<byte>)
    requires Decode(a).Some?
    ensures Decode(a + b).Some? <==> Decode(b).Some?
  {
    hide Decode, Encode;
    EncodeDecode(a);
    DecodeAfterEncoded(Decode(a).value, b);
  }

  /** No longer prefix decodes. */
  lemma NoLongerPrefixDecodes(bs: seq<byte>, m: nat)
    requires ValidUpTo(bs) < m <= |bs|
    ensures Decode(bs[..m]).None?
  {
    hide EncodeChar, StartsWithChar, ValidUpTo, Encode, SequenceLength, DecodeChar;
    var n := ValidUpTo(bs);
    var tail := bs[n..m];
    ValidPrefixDecodes(bs);
    DecodeBehind(bs[..n], tail);
    assert bs[..n] + tail == bs[..m];
    StartsLonger(tail, bs[m..]);
    assert tail + bs[m..] == bs[n..];
  }

  /** `ValidUpTo` measures the longest prefix that decodes. */
  lemma ValidUpToIsLongest(bs: seq<byte>)
    ensures Decode(bs[..ValidUpTo(bs)]).Some?
    ensures forall m :: ValidUpTo(bs) < m <= |bs| ==> Decode(bs[..m]).None?
  {
    hide Decode, ValidUpTo;
    ValidPrefixDecodes(bs);
    forall m | ValidUpTo(bs) < m <= |bs| ensures Decode(bs[..m]).None? {
      NoLongerPrefixDecodes(bs, m);
    }
  }

  lemma StartsLonger(bs: seq<byte>, more: seq<byte>)
    ensures StartsWithChar(bs) ==> StartsWithChar(bs + more)
  {
    if StartsWithChar(bs) {
      var n := SequenceLength(bs[0]);
      assert (bs + more)[..n] == bs[..n];
    }
  }

  /** Whether a character starts at `tail` is settled by `tail`, unless `tail` ends inside one. */
  lemma StartIsLocal(tail: seq<byte>, more: seq<byte>)
    requires tail != [] && StartsWithChar(tail + more)
    ensures StartsWithChar(tail) || Plausible(tail)
  {
    var n := SequenceLength(tail[0]);
    if n <= |tail| {
      assert (tail + more)[..n] == tail[..n];
    } else {
      assert (tail + more)[..n][..|tail|] == tail;
    }
  }

  /** A tail that neither starts with a character nor can grow into one never decodes. */
  lemma HopelessTail(tail: seq<byte>, more: seq<byte>)
    requires tail != [] && !StartsWithChar(tail) && !Plausible(tail)
    ensures Decode(tail + more).None?
  {
    if StartsWithChar(tail + more) {
      StartIsLocal(tail, more);
    }
  }

  /** One character of each length, encoded as section 3 of RFC 3629 says. */
  lemma Examples()
    ensures Encode("A\U{e9}\U{20ac}\U{1f600}")
         == [0x41] + [0xC3, 0xA9] + [0xE2, 0x82, 0xAC] + [0xF0, 0x9F, 0x98, 0x80]
  {
    hide EncodeChar;
    assert EncodeChar('A') == [0x41] && EncodeChar('\U{e9}') == [0xC3, 0xA9] by {
      ShortExamples();
    }
    assert EncodeChar('\U{20ac}') == [0xE2, 0x82, 0xAC] && EncodeChar('\U{1f600}') == [0xF0, 0x9F, 0x98, 0x80] by {
      LongExamples();
    }
    EncodeConcat("A\U{e9}", "\U{20ac}\U{1f600}");
    EncodeTwo('A', '\U{e9}');
    EncodeTwo('\U{20ac}', '\U{1f600}');
    assert "A\U{e9}" + "\U{20ac}\U{1f600}" == "A\U{e9}\U{20ac}\U{1f600}";
  }

  lemma ShortExamples()
    ensures EncodeChar('A') == [0x41] && EncodeChar('\U{e9}') == [0xC3, 0xA9]
  {
  }

  lemma LongExamples()
    ensures EncodeChar('\U{20ac}') == [0xE2, 0x82, 0xAC]
    ensures EncodeChar('\U{1f600}') == [0xF0, 0x9F, 0x98, 0x80]
  {
  }

  lemma EncodeTwo(a: char, b: char)
    ensures Encode([a, b]) == EncodeChar(a) + EncodeChar(b)
  {
    assert [a, b][1..] == [b] && [b][1..] == [];
    assert Encode([b]) == EncodeChar(b) + Encode([]);
  }
}
