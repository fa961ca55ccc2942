/** How large the values of the ProxyNova language are, one operation at a time. */
module ExprLimits {
  import opened Wrappers
  import opened ExprSyntax
  import opened ExprMeaning
  import Base64
  import Text
  import Utf8

  /** Every string in the value takes at most `limit` bytes. */
  predicate ValueWithin(value: Val, limit: nat) {
    match value
    case Str(text) => |Utf8.Encode(text)| <= limit
    case Arr(items) =>
      forall i :: 0 <= i < |items| && items[i].Txt? ==> |Utf8.Encode(items[i].text)| <= limit
  }

  // ----- Parts and copies -----

  lemma SubstringEncodesShorter(text: string, i: nat, j: nat)
    requires i <= j <= |text|
    ensures |Utf8.Encode(text[i..j])| <= |Utf8.Encode(text)|
  {
    Utf8.EncodeConcat(text[..i], text[i..j]);
    Utf8.EncodeConcat(text[..i] + text[i..j], text[j..]);
    assert text[..i] + text[i..j] + text[j..] == text;
  }

  lemma {:induction false} PartsEncodeShorter(text: string, separator: string, k: nat)
    requires separator != "" && k < |Text.SplitOn(text, separator)|
    ensures |Utf8.Encode(Text.SplitOn(text, separator)[k])| <= |Utf8.Encode(text)|
    decreases |text|
  {
    match Text.Find(text, separator, 0)
    case None =>
    case Some(i) =>
      var rest := text[i + |separator|..];
      if k == 0 {
        SubstringEncodesShorter(text, 0, i);
      } else {
        PartsEncodeShorter(rest, separator, k - 1);
        SubstringEncodesShorter(text, i + |separator|, |text|);
        assert text[i + |separator|..|text|] == rest;
        assert Text.SplitOn(text, separator)[k] == Text.SplitOn(rest, separator)[k - 1];
      }
  }

  lemma {:induction false} EncodingIsNoShorter(text: string)
    ensures |text| <= |Utf8.Encode(text)|
  {
    if text != "" {
      EncodingIsNoShorter(text[1..]);
    }
  }

  lemma {:induction false} TrimmedIsShorter(text: string)
    ensures |Text.Trim(text)| <= |text|
  {
    TrimStartIsShorter(text);
    TrimEndIsShorter(Text.TrimStart(text));
  }

  lemma {:induction false} TrimStartIsShorter(text: string)
    ensures |Text.TrimStart(text)| <= |text|
  {
    if text != "" {
      TrimStartIsShorter(text[1..]);
    }
  }

  lemma {:induction false} TrimEndIsShorter(text: string)
    ensures |Text.TrimEnd(text)| <= |text|
  {
    if text != "" {
      TrimEndIsShorter(text[..|text| - 1]);
    }
  }

  lemma {:induction false} RepeatEncoding(text: string, n: nat)
    ensures |Utf8.Encode(Text.RepeatText(text, n))| == n * |Utf8.Encode(text)|
  {
    if n > 0 {
      RepeatEncoding(text, n - 1);
      Utf8.EncodeConcat(text, Text.RepeatText(text, n - 1));
      assert n * |Utf8.Encode(text)| == |Utf8.Encode(text)| + (n - 1) * |Utf8.Encode(text)|;
    }
  }

  lemma AtobShrinks(payload: string)
    ensures Meaning(Atob(payload)).Some? ==>
              ValueWithin(Meaning(Atob(payload)).value, |Utf8.Encode(payload)|)
  {
    var bytes := Base64.Decode(Text.Trim(payload));
    TrimmedIsShorter(payload);
    EncodingIsNoShorter(payload);
    if bytes.Some? && Utf8.Decode(bytes.value).Some? {
      Utf8.EncodeDecode(bytes.value);
    }
  }

  /** One method call keeps values within any limit of at least 512 bytes. */
  lemma ApplyKeepsWithin(value: Val, m: Method, limit: nat)
    requires limit >= MAX_EVAL_LEN && ValueWithin(value, limit)
    ensures Apply(value, m).Some? ==> ValueWithin(Apply(value, m).value, limit)
  {
    hide Utf8.Encode, ConcatMeaning, ArithValue;
    match m
    case Substring(start, end) =>
      if value.Str? && Apply(value, m).Some? {
        var from := ArithValue(start).value;
        var to := if end.Some? then ArithValue(end.value).value else I64_MAX;
        var i, j := Clamp(from, |value.text|), Clamp(to, |value.text|);
        SubstringEncodesShorter(value.text, if i <= j then i else j, if i <= j then j else i);
      }
    case Repeat(count) =>
      if value.Str? && Apply(value, m).Some? {
        var n := ArithValue(count).value;
        RepeatEncoding(value.text, n);
        assert |Utf8.Encode(value.text)| * n == n * |Utf8.Encode(value.text)|;
      }
    case Split(separator) =>
      if value.Str? {
        var parts := if separator == "" then Letters(value.text) else Text.SplitOn(value.text, separator);
        forall k | 0 <= k < |parts| ensures |Utf8.Encode(parts[k])| <= |Utf8.Encode(value.text)| {
          if separator == "" {
            SubstringEncodesShorter(value.text, k, k + 1);
            assert value.text[k..k + 1] == parts[k];
          } else {
            PartsEncodeShorter(value.text, separator, k);
          }
        }
      }
    case Reverse =>
    case Join(_) =>
    case Concat(_) =>
    case Map(_, _) =>
  }

  // ----- What a literal can hold -----

  lemma TokenFitsInput(s: seq<byte>)
    requires StringToken(s).Some?
    ensures |Utf8.Encode(StringToken(s).value.0)| <= |s|
  {
    var body := Expect(s, QUOTE).value;
    Utf8.EncodeDecode(StringBody(body, []).value.0);
  }

  /** A literal means no more than its share of the input. */
  lemma PrimaryWithin(s: seq<byte>, limit: nat)
    requires |s| <= limit && PrimaryPhrase(s).Some?
    ensures var e := PrimaryPhrase(s).value.0; Meaning(e).Some? ==> ValueWithin(Meaning(e).value, limit)
  {
    hide Utf8.Encode, StringToken, ArrayPhrase, Ident, Skip, Base64.Decode, Text.Trim;
    if NextIs(s, QUOTE) {
      TokenFitsInput(s);
    } else if !NextIs(s, LBRACKET) {
      TokenFitsInput(Expect(Ident(s).value.1, OPEN).value);
      AtobShrinks(PrimaryPhrase(s).value.0.payload);
    }
  }
}
