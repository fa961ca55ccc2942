/** The ways the ProxyNova feed hides an address, and the proof that decoding undoes each of them. */
module Obfuscation {
  import opened Wrappers
  import opened ExprSyntax
  import opened ExprMeaning
  import opened ExprLaws
  import ExprLimits
  import opened ExprLayout
  import opened ExprReading
  import opened ProxyNova
  import Base64
  import Net
  import Text
  import Utf8

  function Backwards(text: string): string {
    seq(|text|, i requires 0 <= i < |text| => text[|text| - 1 - i])
  }

  lemma CallWellFormed(e: Expr, m: Method)
    requires WellFormed(e) && WellFormedMethod(m)
    ensures WellFormed(Call(e, m))
  {
  }

  lemma LiteralWellFormed(text: string)
    ensures WellFormed(StringLit(text))
  {
  }

  /** `"4321".split("").reverse().join("")`. */
  function ReversedExpr(text: string): (e: Expr)
    ensures WellFormed(e)
  {
    var letters := Call(StringLit(Backwards(text)), Split(""));
    LiteralWellFormed(Backwards(text));
    CallWellFormed(StringLit(Backwards(text)), Split(""));
    CallWellFormed(letters, Reverse);
    CallWellFormed(Call(letters, Reverse), Join(""));
    Call(Call(letters, Reverse), Join(""))
  }

  /** `atob("...")`. */
  function Base64Expr(text: string): Expr {
    Atob(Base64.Encode(Utf8.Encode(text)))
  }

  /** `[...].map(c => String.fromCharCode(c-N))`. */
  function ShiftedExpr(text: string, arrow: Arrow, shift: int): Expr {
    Call(ArrayLit(ShiftedCodes(text, shift)), Map(arrow, Some(shift)))
  }

  function ShiftedCodes(text: string, shift: int): seq<int> {
    seq(|text|, i requires 0 <= i < |text| => text[i] as int + shift)
  }

  /** The shift and the shifted codes fit 64 bits. */
  predicate FitsCodes(text: string, shift: int) {
    Fits64(shift) && forall i :: 0 <= i < |text| ==> Fits64(text[i] as int + shift)
  }

  /** `"..1.2..".substring(3-1, 5)`. */
  function RangeExpr(text: string, start: Arith, end: Arith): (e: Expr)
    ensures WellFormed(e)
  {
    LiteralWellFormed(text);
    CallWellFormed(StringLit(text), Substring(start, Some(end)));
    Call(StringLit(text), Substring(start, Some(end)))
  }

  /** `".147".repeat(2).substring(4)`. */
  function RepeatedExpr(unit: string, count: Arith, start: Arith, end: Option<Arith>): (e: Expr)
    ensures WellFormed(e)
  {
    var repeated := Call(StringLit(unit), Repeat(count));
    LiteralWellFormed(unit);
    CallWellFormed(StringLit(unit), Repeat(count));
    CallWellFormed(repeated, Substring(start, end));
    Call(repeated, Substring(start, end))
  }

  /** `left.concat(right)`. */
  function JoinedExpr(left: Expr, right: Expr): (e: Expr)
    requires WellFormed(left) && WellFormed(right)
    ensures WellFormed(e)
  {
    JoinedWellFormed(left, right);
    Call(left, Concat([right]))
  }

  lemma JoinedWellFormed(left: Expr, right: Expr)
    requires WellFormed(left) && WellFormed(right)
    ensures WellFormed(Call(left, Concat([right])))
  {
    var args := [right];
    forall a | a in args ensures WellFormed(a) {
      assert a == right;
    }
    assert WellFormedMethod(Concat(args));
  }

  /** A way of hiding a text, pieces of it in ways of their own included. */
  datatype Hiding =
    | Plainly
    | ByReversal
    | ByBase64
    | ByShift(arrow: Arrow, shift: int)
    | ByRange(before: string, after: string, start: Arith, end: Arith)
    | ByRepetition(unit: string, count: Arith, n: nat, at: nat, from: Arith, to: Option<Arith>)
    | InTwo(k: nat, left: Hiding, right: Hiding)

  predicate MarksOf(bound: Arith, i: nat, length: nat) {
    ArithValue(bound).Some? && Marks(ArithValue(bound).value, i, length)
  }

  predicate Applies(hiding: Hiding, text: string) {
    match hiding
    case ByShift(arrow, _) => ValidIdent(arrow.param)
    case ByRange(before, after, start, end) =>
      var length := |before + text + after|;
      || (MarksOf(start, |before|, length) && MarksOf(end, |before + text|, length))
      || (MarksOf(end, |before|, length) && MarksOf(start, |before + text|, length))
    case ByRepetition(unit, count, n, at, from, to) =>
      && ArithValue(count) == Some(n) && |Utf8.Encode(unit)| * n <= 512
      && at + |text| <= n * |unit| <= 512
      && (forall k :: 0 <= k < |text| ==> unit != "" && text[k] == unit[(at + k) % |unit|])
      && MarksOf(from, at, n * |unit|)
      && (if to.Some? then MarksOf(to.value, at + |text|, n * |unit|) else at + |text| == n * |unit|)
    case InTwo(k, left, right) => k <= |text| && Applies(left, text[..k]) && Applies(right, text[k..])
    case _ => true
  }

  function Hidden(hiding: Hiding, text: string): (e: Expr)
    requires Applies(hiding, text)
    ensures WellFormed(e)
    decreases hiding
  {
    match hiding
    case Plainly => StringLit(text)
    case ByReversal => ReversedExpr(text)
    case ByBase64 => Base64Expr(text)
    case ByShift(arrow, shift) => ShiftedExpr(text, arrow, shift)
    case ByRange(before, after, start, end) => RangeExpr(before + text + after, start, end)
    case ByRepetition(unit, count, _, _, from, to) => RepeatedExpr(unit, count, from, to)
    case InTwo(k, left, right) => JoinedExpr(Hidden(left, text[..k]), Hidden(right, text[k..]))
  }

  /** No shift, and no code it makes, is too large. */
  predicate Works(hiding: Hiding, text: string)
    requires Applies(hiding, text)
  {
    match hiding
    case ByShift(_, shift) => FitsCodes(text, shift)
    case InTwo(k, left, right) => Works(left, text[..k]) && Works(right, text[k..])
    case _ => true
  }

  // ----- What the expressions mean -----

  lemma {:induction false} JoinedLetters(text: string)
    ensures Text.Intercalate(Letters(text), "") == text
  {
    if |text| == 1 {
      assert Letters(text)[0] == text;
    } else if |text| > 1 {
      JoinedLetters(text[1..]);
      assert Letters(text)[1..] == Letters(text[1..]);
    }
  }

  /** Reversing the letters means the text, as long as it fits the size cap. */
  lemma ReversedMeans(text: string)
    ensures Meaning(ReversedExpr(text)) == if |Utf8.Encode(text)| <= 512 then Some(Str(text)) else None
  {
    hide Text.Intercalate, Utf8.Encode;
    var backwards := Backwards(text);
    var items := Texts(Letters(backwards));
    assert Meaning(StringLit(backwards)) == Some(Str(backwards));
    assert Meaning(Call(StringLit(backwards), Split(""))) == Some(Arr(items));
    assert Meaning(Call(Call(StringLit(backwards), Split("")), Reverse)) == Some(Arr(Reversed(items)));
    assert ElemTexts(Reversed(items)) == Letters(text);
    JoinedLetters(text);
  }

  lemma JoinMeans(e: Expr, items: seq<Elem>, separator: string)
    requires Meaning(e) == Some(Arr(items))
    ensures Meaning(Call(e, Join(separator)))
         == var joined := Text.Intercalate(ElemTexts(items), separator);
            if |Utf8.Encode(joined)| <= 512 then Some(Str(joined)) else None
  {
    hide Text.Intercalate, Utf8.Encode, ElemTexts;
  }

  /** Splitting and joining again with the same separator means the text that was split. */
  lemma SplitJoinRestores(e: Expr, text: string, separator: string)
    requires Meaning(e) == Some(Str(text))
    ensures Meaning(Call(Call(e, Split(separator)), Join(separator)))
         == if |Utf8.Encode(text)| <= 512 then Some(Str(text)) else None
  {
    hide Text.Intercalate, Text.SplitOn, Limited, Utf8.Encode, Text.RepeatText, Mapped, ConcatMeaning;
    var parts := if separator == "" then Letters(text) else Text.SplitOn(text, separator);
    assert Meaning(Call(e, Split(separator))) == Some(Arr(Texts(parts)));
    JoinMeans(Call(e, Split(separator)), Texts(parts), separator);
    assert ElemTexts(Texts(parts)) == parts;
    if separator == "" {
      JoinedLetters(text);
    } else {
      Text.IntercalateSplit(text, separator);
    }
  }

  lemma {:induction false} EncodedIsVisible(bs: seq<byte>)
    ensures forall i :: 0 <= i < |Base64.Encode(bs)| ==> !Text.IsWhitespace(Base64.Encode(bs)[i])
  {
    forall x | 0 <= x < 64 ensures !Text.IsWhitespace(Base64.Letter(x)) {
    }
    hide Base64.Letter, Text.IsWhitespace;
    assert !Text.IsWhitespace('=') by {
      assert '=' as int == 0x3D;
    }
    if |bs| >= 3 {
      EncodedIsVisible(bs[3..]);
    }
  }

  /** The Base64 form means any text. */
  lemma Base64Means(text: string)
    ensures Meaning(Base64Expr(text)) == Some(Str(text))
  {
    hide Base64.Encode, Base64.Decode, Utf8.Encode, Utf8.Decode;
    var payload := Base64.Encode(Utf8.Encode(text));
    EncodedIsVisible(Utf8.Encode(text));
    Text.TrimmedAlready(payload);
    Base64.DecodeEncode(Utf8.Encode(text));
    Utf8.DecodeEncode(text);
  }

  lemma {:induction false} ShiftedBack(text: string, shift: int)
    ensures CharCodes(Codes(ShiftedCodes(text, shift)), shift) == text
  {
    if text != "" {
      ShiftedBack(text[1..], shift);
      assert Codes(ShiftedCodes(text, shift))[1..] == Codes(ShiftedCodes(text[1..], shift));
    }
  }

  lemma FitsCodesIs(text: string, shift: int)
    ensures FitsCodes(text, shift) <==> AllRepresentable(ShiftedCodes(text, shift)) && Checked(shift).Some?
  {
    var codes := ShiftedCodes(text, shift);
    if AllRepresentable(codes) {
      forall i | 0 <= i < |text| ensures Fits64(text[i] as int + shift) {
        assert Checked(codes[i]).Some?;
      }
    }
  }

  /** Shifted character codes mean the text when the shift and the codes fit 64 bits and the text
      fits the array cap, and nothing otherwise. */
  lemma ShiftedMeans(text: string, arrow: Arrow, shift: int)
    ensures Meaning(ShiftedExpr(text, arrow, shift))
         == if FitsCodes(text, shift) && |Utf8.Encode(text)| <= 64 then Some(Str(text)) else None
  {
    hide CharCodes, Utf8.Encode;
    var codes := ShiftedCodes(text, shift);
    ShiftedBack(text, shift);
    FitsCodesIs(text, shift);
    assert Meaning(ArrayLit(codes)) == if AllRepresentable(codes) then Some(Arr(Codes(codes))) else None;
  }

  /** A repetition cut to the text means the text. */
  lemma RepetitionMeans(text: string, hiding: Hiding)
    requires hiding.ByRepetition? && Applies(hiding, text)
    ensures Meaning(Hidden(hiding, text)) == Some(Str(text))
  {
    hide ArithValue, Utf8.Encode, Meaning, Marks;
    var unit, at := hiding.unit, hiding.at;
    assert Meaning(StringLit(unit)) == Some(Str(unit)) by {
      LiteralMeans(unit);
    }
    var e := Call(StringLit(unit), Repeat(hiding.count));
    RepeatMeans(StringLit(unit), unit, hiding.count, hiding.n);
    var all := Meaning(e).value.text;
    assert all[at..at + |text|] == text;
    var before, after := all[..at], all[at + |text|..];
    assert all == before + text + after && |before + text| == at + |text|;
    if hiding.to.Some? {
      SubstringCutsOut(e, before, text, after, hiding.from, hiding.to.value);
    } else {
      assert after == "" && before + text + after == before + text;
      SubstringToEnd(e, before, text, hiding.from);
    }
  }

  lemma LiteralMeans(text: string)
    ensures Meaning(StringLit(text)) == Some(Str(text))
  {
  }

  /** Two pieces put together mean what they mean in a row. */
  lemma PiecesMean(left: Expr, right: Expr)
    requires WellFormed(left) && WellFormed(right)
    requires Meaning(left).Some? ==> Meaning(left).value.Str?
    requires Meaning(right).Some? ==> Meaning(right).value.Str?
    ensures Meaning(JoinedExpr(left, right))
         == if Meaning(left).Some? && Meaning(right).Some?
               && |Utf8.Encode(Meaning(left).value.text + Meaning(right).value.text)| <= 512
            then Some(Str(Meaning(left).value.text + Meaning(right).value.text)) else None
  {
    hide Utf8.Encode, WellFormed;
    OneArgument(right);
  }

  lemma OneArgument(right: Expr)
    ensures ConcatMeaning([right])
         == match Meaning(right)
            case Some(Str(text)) => Some(text)
            case _ => None
  {
    hide Meaning;
    assert [right][1..] == [] && ConcatMeaning([]) == Some("");
    if Meaning(right).Some? && Meaning(right).value.Str? {
      assert Meaning(right).value.text + "" == Meaning(right).value.text;
    }
  }

  /** A hidden text of at most 64 bytes means the text, exactly when every shift in its hiding works. */
  lemma {:induction false} HiddenMeans(hiding: Hiding, text: string)
    requires Applies(hiding, text) && |Utf8.Encode(text)| <= 64
    ensures Meaning(Hidden(hiding, text)) == if Works(hiding, text) then Some(Str(text)) else None
    decreases hiding
  {
    hide Utf8.Encode, Meaning, FitsCodes, Base64.Encode, Marks, ArithValue;
    match hiding
    case Plainly => LiteralMeans(text);
    case ByReversal => ReversedMeans(text);
    case ByBase64 => Base64Means(text);
    case ByShift(arrow, shift) => ShiftedMeans(text, arrow, shift);
    case ByRange(before, after, start, end) =>
      LiteralMeans(before + text + after);
      if MarksOf(start, |before|, |before + text + after|) && MarksOf(end, |before + text|, |before + text + after|) {
        SubstringCutsOut(StringLit(before + text + after), before, text, after, start, end);
      } else {
        SubstringCutsOut(StringLit(before + text + after), before, text, after, end, start);
      }
    case ByRepetition(_, _, _, _, _, _) => RepetitionMeans(text, hiding);
    case InTwo(k, left, right) =>
      ExprLimits.SubstringEncodesShorter(text, 0, k);
      ExprLimits.SubstringEncodesShorter(text, k, |text|);
      assert text[0..k] == text[..k] && text[k..|text|] == text[k..];
      HiddenMeans(left, text[..k]);
      HiddenMeans(right, text[k..]);
      PiecesMean(Hidden(left, text[..k]), Hidden(right, text[k..]));
      assert text[..k] + text[k..] == text;
  }

  // ----- Addresses -----

  lemma OctetIsShort(b: byte)
    ensures |Text.NatText(b)| <= 3
  {
    if b >= 100 {
      assert |Text.NatText(b / 10 / 10)| == 1;
    } else if b >= 10 {
      assert |Text.NatText(b / 10)| == 1;
    }
  }

  lemma AddressIsShort(ip: Ipv4)
    ensures |Utf8.Encode(Net.Ipv4Text(ip))| <= 15
  {
    hide Text.NatText, Utf8.Encode;
    OctetIsShort(ip.a);
    OctetIsShort(ip.b);
    OctetIsShort(ip.c);
    OctetIsShort(ip.d);
    AsciiEncodes(Net.Ipv4Text(ip));
  }

  lemma AddressSurvivesTrim(ip: Ipv4)
    ensures Net.ParseIpv4(Text.Trim(Net.Ipv4Text(ip))) == Some(ip)
  {
    hide Text.NatText, Net.ParseIpv4, Text.Trim;
    var text, d := Net.Ipv4Text(ip), Text.NatText(ip.d);
    assert text[|text| - 1] == d[|d| - 1];
    Text.TrimmedAlready(text);
    Net.Ipv4RoundTrip(ip);
  }

  /** However an address is hidden, its pieces in ways of their own, and however the expression is laid
      out, decoding gives the address, exactly when every shift in its hiding works; otherwise it gives
      nothing. */
  lemma HiddenAddressDecodes(ip: Ipv4, hiding: Hiding, raw: string)
    requires Applies(hiding, Net.Ipv4Text(ip))
    requires LayoutOf(Hidden(hiding, Net.Ipv4Text(ip)), Utf8.Encode(raw))
    ensures DecodedIp(raw) == if Works(hiding, Net.Ipv4Text(ip)) then Some(ip) else None
  {
    hide LayoutOf, DecodedIp, Net.Ipv4Text, Utf8.Encode, Meaning, Net.ParseIpv4, Text.Trim;
    hide Applies, Works, Hidden;
    var text := Net.Ipv4Text(ip);
    AddressIsShort(ip);
    AddressSurvivesTrim(ip);
    DecodesObfuscatedAddress(Hidden(hiding, text), raw);
    HiddenMeans(hiding, text);
  }
}
