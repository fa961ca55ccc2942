/** The decoder of obfuscated addresses, `src/providers/proxynova.rs`. */
module ProxyNova {
  import opened Wrappers
  import opened ExprSyntax
  import opened ExprParser
  import opened ExprLayout
  import opened ExprPrinting
  import opened ExprReading
  import opened ExprMeaning
  import Net
  import Text
  import Utf8

  /** `decode_proxynova_ip`: a dotted quad passes through, anything else is evaluated. */
  method DecodeIp(raw: string) returns (ip: Option<Ipv4>)
    ensures ip == DecodedIp(raw)
  {
    var trimmed := Text.Trim(raw);
    ip := Net.ParseIpv4(trimmed);
    if ip.Some? {
      return;
    }
    var text := EvalExpr(trimmed);
    if text.None? {
      return None;
    }
    ip := Net.ParseIpv4(Text.Trim(text.value));
  }

  function DecodedIp(raw: string): Option<Ipv4> {
    var trimmed := Text.Trim(raw);
    if Net.ParseIpv4(trimmed).Some? then Net.ParseIpv4(trimmed)
    else
      var text :- TextMeaning(Utf8.Encode(trimmed));
      Net.ParseIpv4(Text.Trim(text))
  }

  // ----- Trimming a laid-out expression -----

  lemma {:induction false} EncodeAscii(bs: seq<byte>)
    requires forall i :: 0 <= i < |bs| ==> bs[i] < 0x80
    ensures Utf8.Encode(TextOf(bs)) == bs
  {
    if bs != [] {
      EncodeAscii(bs[1..]);
      assert TextOf(bs)[1..] == TextOf(bs[1..]);
    }
  }

  lemma {:induction false} TrimAround(before: string, middle: string, after: string)
    requires forall i :: 0 <= i < |before| ==> Text.IsWhitespace(before[i])
    requires forall i :: 0 <= i < |after| ==> Text.IsWhitespace(after[i])
    requires middle != "" && !Text.IsWhitespace(middle[0]) && !Text.IsWhitespace(middle[|middle| - 1])
    ensures Text.Trim(before + middle + after) == middle
    decreases |before| + |after|
  {
    var s := before + middle + after;
    if before != "" {
      TrimAround(before[1..], middle, after);
      assert s[1..] == before[1..] + middle + after;
    } else if after != "" {
      assert s == middle + after && Text.TrimStart(s) == s;
      TrimAround(before, middle, after[..|after| - 1]);
      assert s[..|s| - 1] == before + middle + after[..|after| - 1];
      assert Text.TrimStart(s[..|s| - 1]) == s[..|s| - 1];
    } else {
      assert s == middle;
    }
  }

  lemma {:induction false} AsciiEnd(text: string)
    requires text != "" && Utf8.Encode(text)[|Utf8.Encode(text)| - 1] < 0x80
    ensures text[|text| - 1] as int == Utf8.Encode(text)[|Utf8.Encode(text)| - 1]
  {
    if |text| > 1 {
      assert Utf8.Encode(text[1..]) != [];
      AsciiEnd(text[1..]);
    } else {
      EncodeOne(text[0]);
      assert [text[0]] == text;
    }
  }

  /** An expression ends in a quote, a bracket or a parenthesis. */
  lemma LastByte(e: Expr, pieces: seq<Piece>)
    requires WellFormed(e) && Lays(pieces, Tokens(e))
    ensures Laid(pieces) != []
    ensures var b := Laid(pieces)[|Laid(pieces)| - 1]; b == QUOTE || b == CLOSE || b == RBRACKET
  {
    hide Tokens, WellFormed, Spells;
    var k := |pieces| - 1;
    LastToken(e);
    SpelledEnd(pieces[k].token, Tokens(e)[k]);
    LaidConcat(pieces[..k], pieces[k..]);
    assert pieces[..k] + pieces[k..] == pieces;
    assert pieces[k..][1..] == [];
    assert Laid(pieces[k..]) == pieces[k].gap + pieces[k].token;
    assert Laid(pieces) == Laid(pieces[..k]) + pieces[k].gap + pieces[k].token;
  }

  predicate ClosingToken(token: Token) {
    token.Quoted? || token == Mark(CLOSE) || token == Mark(RBRACKET)
  }

  lemma SpelledEnd(bs: seq<byte>, token: Token)
    requires ClosingToken(token) && Spells(bs, token)
    ensures bs != [] && (var b := bs[|bs| - 1]; b == QUOTE || b == CLOSE || b == RBRACKET)
  {
  }

  lemma LastToken(e: Expr)
    requires WellFormed(e)
    ensures ClosingToken(Tokens(e)[|Tokens(e)| - 1])
  {
    if e.Call? && e.operation.Concat? {
      LastArgToken(e.operation.args);
    }
  }

  lemma {:induction false} LastArgToken(args: seq<Expr>)
    requires forall a | a in args :: WellFormed(a)
    ensures ArgTokens(args)[|ArgTokens(args)| - 1] == Mark(CLOSE)
  {
    if |args| > 1 {
      LastArgToken(args[1..]);
    }
  }

  lemma SpacesAreWhitespace(gap: seq<byte>)
    requires AllSpace(gap)
    ensures forall i :: 0 <= i < |TextOf(gap)| ==> Text.IsWhitespace(TextOf(gap)[i])
  {
  }

  /** Text whose encoding is bytes between two runs of white space. */
  lemma RawParts(raw: string, gap: seq<byte>, inner: seq<byte>, last: seq<byte>)
    requires AllSpace(gap) && AllSpace(last) && IsText(inner)
    requires Utf8.Encode(raw) == gap + inner + last
    ensures var middle := Utf8.Decode(inner).value;
            raw == TextOf(gap) + middle + TextOf(last) && Utf8.Encode(middle) == inner
  {
    hide Utf8.Encode, Utf8.Decode, TextOf;
    var middle := Utf8.Decode(inner).value;
    var all := TextOf(gap) + middle + TextOf(last);
    Utf8.EncodeDecode(inner);
    EncodeAscii(gap);
    EncodeAscii(last);
    Utf8.EncodeConcat(TextOf(gap), middle);
    Utf8.EncodeConcat(TextOf(gap) + middle, TextOf(last));
    Utf8.DecodeEncode(all);
    Utf8.DecodeEncode(raw);
  }

  /** What is left of a text when ASCII is cut off in front and behind is text. */
  lemma InnerIsText(raw: string, gap: seq<byte>, inner: seq<byte>, last: seq<byte>)
    requires AllSpace(gap) && AllSpace(last) && Utf8.Encode(raw) == gap + inner + last
    ensures IsText(inner)
  {
    hide Utf8.Encode, Utf8.Decode, TextOf;
    Utf8.DecodeEncode(raw);
    EncodeAscii(gap);
    Assoc(gap, inner, last);
    Utf8.DecodeAfterEncoded(TextOf(gap), inner + last);
    DropAsciiTail(inner, last);
  }

  /** A character in front of an ASCII tail ends before the tail. */
  lemma CharEndsBeforeTail(bs: seq<byte>, tail: seq<byte>)
    requires bs != [] && (forall i :: 0 <= i < |tail| ==> tail[i] < 0x80)
    requires Utf8.StartsWithChar(bs + tail)
    ensures Utf8.SequenceLength(bs[0]) <= |bs|
  {
    if tail != [] {
      assert (bs + tail)[|bs|] == tail[0];
    }
  }

  lemma {:induction false} DropAsciiTail(bs: seq<byte>, tail: seq<byte>)
    requires (forall i :: 0 <= i < |tail| ==> tail[i] < 0x80) && IsText(bs + tail)
    ensures IsText(bs)
    decreases |bs|
  {
    if bs != [] {
      var all, n := bs + tail, Utf8.SequenceLength(bs[0]);
      CharEndsBeforeTail(bs, tail);
      assert all[..n] == bs[..n] && all[n..] == bs[n..] + tail;
      DropAsciiTail(bs[n..], tail);
    }
  }

  /** Trimming removes the outer white space and leaves a layout of the same tree. */
  lemma TrimLayout(e: Expr, pieces: seq<Piece>, last: seq<byte>, raw: string)
    requires WellFormed(e) && Lays(pieces, Tokens(e)) && AllSpace(last)
    requires Utf8.Encode(raw) == Laid(pieces) + last
    ensures Utf8.Encode(Text.Trim(raw)) == Laid(pieces[0 := pieces[0].(gap := [])])
    ensures Text.Trim(raw) != "" && !Text.IsDigit(Text.Trim(raw)[0])
  {
    hide Utf8.Encode, Utf8.Decode, Text.Trim, Tokens, WellFormed, TextOf, Spells;
    var gap := pieces[0].gap;
    var inner := pieces[0 := pieces[0].(gap := [])];
    assert Lays(inner, Tokens(e));
    Unroll(pieces, last);
    Unroll(inner, []);
    assert Laid(inner) + [] == Laid(inner);
    assert inner[1..] == pieces[1..];
    assert Laid(pieces) + last == gap + Laid(inner) + last;
    InnerIsText(raw, gap, Laid(inner), last);
    RawParts(raw, gap, Laid(inner), last);
    var middle := Utf8.Decode(Laid(inner)).value;
    FirstTokenByte(e, pieces[0].token);
    LastByte(e, inner);
    FirstChar(middle);
    AsciiEnd(middle);
    SpacesAreWhitespace(gap);
    SpacesAreWhitespace(last);
    TrimAround(TextOf(gap), middle, TextOf(last));
  }

  lemma FirstChar(text: string)
    requires Utf8.Encode(text) != [] && Utf8.Encode(text)[0] < 0x80
    ensures text != "" && text[0] as int == Utf8.Encode(text)[0]
  {
  }

  lemma NotAnAddress(text: string)
    requires text != "" && !Text.IsDigit(text[0])
    ensures Net.ParseIpv4(text).None?
  {
    hide Text.NatText, Text.DigitsValue;
    match Text.Find(text, ".", 0)
    case None =>
    case Some(i) =>
      assert Text.SplitOn(text, ".")[0] == text[..i];
  }

  /** Any layout of a tree, with white space around it, decodes to the address the tree's string
      spells, and to nothing when the tree has no string value or the string spells no address. */
  lemma DecodesObfuscatedAddress(e: Expr, raw: string)
    requires WellFormed(e) && LayoutOf(e, Utf8.Encode(raw))
    ensures DecodedIp(raw)
         == match Meaning(e) case Some(Str(text)) => Net.ParseIpv4(Text.Trim(text)) case _ => None
  {
    hide Utf8.Encode, Text.Trim, Net.ParseIpv4, ParseTree, Meaning, Tokens, WellFormed;
    var pieces: seq<Piece>, last: seq<byte> :|
      Lays(pieces, Tokens(e)) && AllSpace(last) && Utf8.Encode(raw) == Laid(pieces) + last + [];
    assert Laid(pieces) + last + [] == Laid(pieces) + last;
    var inner := pieces[0 := pieces[0].(gap := [])];
    TrimLayout(e, pieces, last, raw);
    NotAnAddress(Text.Trim(raw));
    assert Lays(inner, Tokens(e));
    ParsesBack(e, inner, []);
    assert Laid(inner) + [] == Laid(inner);
  }

  /** A plain address passes through. */
  lemma PlainAddressPasses(ip: Ipv4)
    ensures DecodedIp(Net.Ipv4Text(ip)) == Some(ip)
  {
    hide Net.ParseIpv4, TextMeaning;
    var text := Net.Ipv4Text(ip);
    Net.Ipv4RoundTrip(ip);
    var d := Text.NatText(ip.d);
    assert Text.IsDigit(text[0]);
    assert text[|text| - 1] == d[|d| - 1];
    Text.TrimmedAlready(text);
  }
}
