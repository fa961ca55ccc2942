/** What each operation of the ProxyNova language means, said shorter the functions that define it: by
    the characters of its result, with the program's limits written out. */
module ExprLaws {
  import opened Wrappers
  import opened ExprSyntax
  import opened ExprMeaning
  import Base64
  import Text
  import Utf8

  /** Representable in 64 bits. */
  predicate Fits64(x: int) {
    -0x8000_0000_0000_0000 <= x <= 0x7FFF_FFFF_FFFF_FFFF
  }

  /** White space between tokens is space, tab, line feed, form feed and carriage return; names are made
      of ASCII letters, digits, underscores and dollar signs, and do not begin with a digit. */
  lemma Alphabet(b: byte)
    ensures IsSpace(b) <==> b in {0x20, 0x09, 0x0A, 0x0C, 0x0D}
    ensures IsIdentStart(b) <==> 0x41 <= b <= 0x5A || 0x61 <= b <= 0x7A || b in {0x5F, 0x24}
    ensures IsIdentByte(b) <==> IsIdentStart(b) || 0x30 <= b <= 0x39
  {
  }

  // ----- Arithmetic -----

  /** An operator and its operand: `-n` if `minus`, `+n` if not. */
  datatype Term = Term(minus: bool, n: int)

  function Chain(first: int, terms: seq<Term>): Arith {
    if terms == [] then Num(first)
    else
      var last := terms[|terms| - 1];
      var left := Chain(first, terms[..|terms| - 1]);
      if last.minus then Minus(left, last.n) else Plus(left, last.n)
  }

  /** The sum of the added terms less that of the subtracted ones. */
  function Total(first: int, terms: seq<Term>): int {
    first + SumOf(terms, false) - SumOf(terms, true)
  }

  function SumOf(terms: seq<Term>, minus: bool): int {
    if terms == [] then 0
    else
      var last := terms[|terms| - 1];
      SumOf(terms[..|terms| - 1], minus) + (if last.minus == minus then last.n else 0)
  }

  /** All literals, and the totals on the way. */
  predicate NeverOverflows(first: int, terms: seq<Term>) {
    && (forall i :: 0 <= i < |terms| ==> Fits64(terms[i].n))
    && (forall i :: 0 <= i <= |terms| ==> Fits64(Total(first, terms[..i])))
  }

  /** A chain of literals is worth their total, and nothing exactly when a literal or a total on the
      way does not fit 64 bits. */
  lemma {:induction false} ChainIsTotal(first: int, terms: seq<Term>)
    ensures ArithValue(Chain(first, terms))
         == if NeverOverflows(first, terms) then Some(Total(first, terms)) else None
  {
    if terms == [] {
      assert terms[..0] == [];
    } else {
      var init, last := terms[..|terms| - 1], terms[|terms| - 1];
      ChainIsTotal(first, init);
      OneTermMore(first, init, last);
      assert init + [last] == terms;
    }
  }

  lemma OneTermMore(first: int, init: seq<Term>, last: Term)
    ensures Total(first, init + [last]) == Total(first, init) + (if last.minus then -last.n else last.n)
    ensures NeverOverflows(first, init + [last])
       <==> NeverOverflows(first, init) && Fits64(last.n) && Fits64(Total(first, init + [last]))
  {
    hide Total;
    var terms := init + [last];
    assert terms[..|init|] == init && terms[..|terms|] == terms;
    assert forall i :: 0 <= i <= |init| ==> terms[..i] == init[..i];
    assert Total(first, terms) == Total(first, init) + (if last.minus then -last.n else last.n) by {
      TotalSnoc(first, init, last);
    }
    if NeverOverflows(first, terms) {
      forall i | 0 <= i < |init| ensures Fits64(init[i].n) {
        assert terms[i] == init[i];
      }
      forall i | 0 <= i <= |init| ensures Fits64(Total(first, init[..i])) {
        assert Fits64(Total(first, terms[..i]));
      }
      assert Fits64(Total(first, terms[..|terms|]));
      assert terms[|init|] == last;
    }
  }

  lemma TotalSnoc(first: int, init: seq<Term>, last: Term)
    ensures Total(first, init + [last]) == Total(first, init) + (if last.minus then -last.n else last.n)
  {
    assert (init + [last])[..|init|] == init;
  }

  // ----- Substring -----

  /** A bound's value stands for position `i` of a text of `length` characters: the position itself, or
      a value beyond the end it is. */
  predicate Marks(value: int, i: nat, length: nat) {
    value == i || (i == 0 && value < 0) || (i == length && value > length)
  }

  /** Bounds on both sides of `b`, in either order, cut `b` out. */
  lemma SubstringCutsOut(e: Expr, a: string, b: string, c: string, start: Arith, end: Arith)
    requires Meaning(e) == Some(Str(a + b + c))
    requires ArithValue(start).Some? && Marks(ArithValue(start).value, |a|, |a + b + c|)
    requires ArithValue(end).Some? && Marks(ArithValue(end).value, |a + b|, |a + b + c|)
    ensures Meaning(Call(e, Substring(start, Some(end)))) == Some(Str(b))
    ensures Meaning(Call(e, Substring(end, Some(start)))) == Some(Str(b))
  {
    hide ArithValue;
    assert (a + b + c)[|a|..|a| + |b|] == b;
  }

  /** Without a second bound everything behind the first is left. */
  lemma SubstringToEnd(e: Expr, a: string, b: string, start: Arith)
    requires Meaning(e) == Some(Str(a + b)) && |a + b| <= 0x7FFF_FFFF_FFFF_FFFF
    requires ArithValue(start).Some? && Marks(ArithValue(start).value, |a|, |a + b|)
    ensures Meaning(Call(e, Substring(start, None))) == Some(Str(b))
  {
    hide ArithValue;
    assert (a + b)[|a|..|a + b|] == b;
  }

  /** Every pair of bounds marks two positions, so every `substring` of a string is one of these. */
  lemma BoundsMark(value: int, length: nat) returns (i: nat)
    ensures i <= length && Marks(value, i, length)
  {
    i := if value < 0 then 0 else if value > length then length else value;
  }

  // ----- Repeat -----

  lemma {:induction false} RepeatedLength(text: string, n: nat)
    ensures |Text.RepeatText(text, n)| == n * |text|
  {
    if n > 0 {
      RepeatedLength(text, n - 1);
    }
  }

  lemma {:induction false} RepeatedAt(text: string, n: nat, k: nat)
    requires k < |Text.RepeatText(text, n)|
    ensures text != "" && Text.RepeatText(text, n)[k] == text[k % |text|]
  {
    NothingRepeated(n);
    if k >= |text| {
      RepeatedAt(text, n - 1, k - |text|);
      OneRoundLess(k, |text|);
    } else {
      SmallRemainder(k, |text|);
    }
  }

  lemma SmallRemainder(k: nat, m: nat)
    requires k < m
    ensures k % m == k
  {
  }

  lemma {:induction false} NothingRepeated(n: nat)
    ensures Text.RepeatText("", n) == ""
  {
    if n > 0 {
      NothingRepeated(n - 1);
    }
  }

  /** Repeating has a value exactly when the count is not negative and the result takes at most 512
      bytes; its k-th character is then the text's (k mod length)-th. */
  lemma RepeatMeans(e: Expr, text: string, count: Arith, n: int)
    requires Meaning(e) == Some(Str(text)) && ArithValue(count) == Some(n)
    ensures var r := Meaning(Call(e, Repeat(count)));
            && (r.Some? <==> n >= 0 && |Utf8.Encode(text)| * n <= 512)
            && (r.Some? ==>
                  && r.value.Str? && |r.value.text| == n * |text|
                  && forall k: nat :: k < |r.value.text| ==> text != "" && r.value.text[k] == text[k % |text|])
  {
    hide ArithValue, Utf8.Encode, Text.RepeatText;
    if n >= 0 {
      RepeatedLength(text, n);
      forall k: nat | k < |Text.RepeatText(text, n)|
        ensures text != "" && Text.RepeatText(text, n)[k] == text[k % |text|]
      {
        RepeatedAt(text, n, k);
      }
    }
  }

  // ----- Split and join -----

  /** The characters of `separator` stand in `text` from position `j` on. */
  predicate StandsAt(text: string, separator: string, j: nat) {
    j + |separator| <= |text| && forall i :: 0 <= i < |separator| ==> text[j + i] == separator[i]
  }

  /** `separator` does not stand in `text` before `end`. */
  predicate Free(text: string, separator: string, end: nat) {
    forall j: nat :: j < end ==> !StandsAt(text, separator, j)
  }

  /** `parts` are what lies between the occurrences of `separator`, taken from the left: each part runs
      up to the first occurrence, and none is left in the last. */
  predicate Cuts(text: string, separator: string, parts: seq<string>) {
    && parts != []
    && Text.Intercalate(parts, separator) == text
    && (forall i :: 0 <= i < |parts| - 1 ==> Free(parts[i] + separator, separator, |parts[i]|))
    && Free(parts[|parts| - 1], separator, |parts[|parts| - 1]| + 1)
  }

  lemma StandsIsOccurs(text: string, separator: string, j: nat)
    ensures StandsAt(text, separator, j) <==> Text.OccursAt(text, separator, j)
  {
    if j + |separator| <= |text| {
      var slice := text[j..j + |separator|];
      assert forall i :: 0 <= i < |separator| ==> slice[i] == text[j + i];
    }
  }

  lemma StandsInPrefix(text: string, n: nat, separator: string, j: nat)
    requires n <= |text| && StandsAt(text[..n], separator, j)
    ensures StandsAt(text, separator, j)
  {
    forall i | 0 <= i < |separator| ensures text[j + i] == separator[i] {
      assert text[..n][j + i] == separator[i];
    }
  }

  lemma FirstPartIsFree(text: string, separator: string, n: nat)
    requires n + |separator| <= |text| && text[n..n + |separator|] == separator
    requires forall j: nat :: j < n ==> !Text.OccursAt(text, separator, j)
    ensures Free(text[..n] + separator, separator, n)
  {
    var part := text[..n] + separator;
    assert part == text[..n + |separator|];
    forall j: nat | j < n ensures !StandsAt(part, separator, j) {
      if StandsAt(part, separator, j) {
        StandsInPrefix(text, n + |separator|, separator, j);
        StandsIsOccurs(text, separator, j);
      }
    }
  }

  lemma {:induction false} SplitCuts(text: string, separator: string)
    requires separator != ""
    ensures Cuts(text, separator, Text.SplitOn(text, separator))
    decreases |text|
  {
    hide Text.Intercalate, Free, Text.OccursAt;
    var parts := Text.SplitOn(text, separator);
    Text.IntercalateSplit(text, separator);
    match Text.Find(text, separator, 0)
    case None =>
      assert Free(text, separator, |text| + 1) by {
        NoneStands(text, separator);
      }
    case Some(n) =>
      FoundThere(text, separator, n);
      var rest := Text.SplitOn(text[n + |separator|..], separator);
      SplitCuts(text[n + |separator|..], separator);
      assert parts == [text[..n]] + rest;
      FirstPartIsFree(text, separator, n);
      forall i | 0 <= i < |parts| - 1 ensures Free(parts[i] + separator, separator, |parts[i]|) {
        if i > 0 {
          assert parts[i] == rest[i - 1];
        }
      }
      assert parts[|parts| - 1] == rest[|rest| - 1];
  }

  lemma FoundThere(text: string, separator: string, n: nat)
    requires Text.OccursAt(text, separator, n)
    ensures n + |separator| <= |text| && text[n..n + |separator|] == separator
  {
  }

  lemma NoneStands(text: string, separator: string)
    requires forall j: nat :: !Text.OccursAt(text, separator, j)
    ensures Free(text, separator, |text| + 1)
  {
    forall j: nat ensures !StandsAt(text, separator, j) {
      StandsIsOccurs(text, separator, j);
    }
  }

  /** Splitting a string gives an array of texts: its characters for the empty separator, and what lies
      between the occurrences of any other. */
  lemma SplitMeans(e: Expr, text: string, separator: string)
    requires Meaning(e) == Some(Str(text))
    ensures var r := Meaning(Call(e, Split(separator)));
            && r.Some? && r.value.Arr?
            && (forall i :: 0 <= i < |r.value.items| ==> r.value.items[i].Txt?)
            && (separator == "" ==>
                  && |r.value.items| == |text|
                  && forall i :: 0 <= i < |text| ==> r.value.items[i] == Txt([text[i]]))
            && (separator != "" ==>
                  exists parts :: Cuts(text, separator, parts) && |parts| == |r.value.items|
                    && forall i :: 0 <= i < |parts| ==> r.value.items[i] == Txt(parts[i]))
  {
    hide Text.SplitOn, Cuts;
    if separator != "" {
      SplitCuts(text, separator);
      var parts := Text.SplitOn(text, separator);
      assert Meaning(Call(e, Split(separator))) == Some(Arr(Texts(parts)));
    }
  }

  /** Reversing an array turns it round. */
  lemma ReverseMeans(e: Expr, items: seq<Elem>)
    requires Meaning(e) == Some(Arr(items))
    ensures var r := Meaning(Call(e, ExprSyntax.Reverse));
            && r.Some? && r.value.Arr? && |r.value.items| == |items|
            && forall i :: 0 <= i < |items| ==> r.value.items[i] == items[|items| - 1 - i]
  {
  }

  /** A decimal numeral for `n`, with a minus sign if it is negative. */
  predicate IsNumeral(text: string, n: int) {
    if n < 0 then text != "" && text[0] == '-' && Text.AllDigits(text[1..]) && Text.DigitsValue(text[1..]) == -n
    else Text.AllDigits(text) && Text.DigitsValue(text) == n
  }

  /** A number joins to its numeral. */
  lemma NumberJoins(e: Expr, n: int)
    requires Meaning(e) == Some(Arr([Code(n)])) && Fits64(n)
    ensures var r := Meaning(Call(e, Join(""))); r.Some? && r.value.Str? && IsNumeral(r.value.text, n)
  {
    hide Text.DigitsValue, Utf8.Encode, Text.NatText;
    assert ElemTexts([Code(n)]) == [Text.IntText(n)];
    var digits := Text.NatText(if n < 0 then -n else n);
    Text.DigitsValueOfNatText(if n < 0 then -n else n);
    assert n < 0 ==> ("-" + digits)[1..] == digits;
    NumeralIsShort(n);
  }

  lemma {:induction false} DigitsFit(n: nat, k: nat)
    requires n < Power10(k)
    ensures |Text.NatText(n)| <= k || n < 10
  {
    if n >= 10 && k > 0 {
      DigitsFit(n / 10, k - 1);
      assert k >= 2;
    }
  }

  function Power10(k: nat): nat {
    if k == 0 then 1 else 10 * Power10(k - 1)
  }

  lemma {:induction false} AsciiEncodes(text: string)
    requires forall i :: 0 <= i < |text| ==> text[i] as int < 0x80
    ensures |Utf8.Encode(text)| == |text|
  {
    if text != "" {
      AsciiEncodes(text[1..]);
    }
  }

  lemma NumeralIsShort(n: int)
    requires Fits64(n)
    ensures |Utf8.Encode(Text.IntText(n))| <= 512
  {
    hide Utf8.Encode, Text.NatText, Power10;
    var magnitude := if n < 0 then -n else n;
    Power20();
    DigitsFit(magnitude, 20);
    OneDigit(magnitude);
    AsciiEncodes(Text.IntText(n));
  }

  lemma OneDigit(n: nat)
    ensures n < 10 ==> |Text.NatText(n)| == 1
  {
  }

  lemma Power20()
    ensures Power10(20) == 100_000_000_000_000_000_000
  {
    assert Power10(4) == 10000;
    assert Power10(8) == 100_000_000;
    assert Power10(12) == 1_000_000_000_000;
    assert Power10(16) == 10_000_000_000_000_000;
  }

  // ----- Concatenation -----

  function Literals(parts: seq<string>): seq<Expr> {
    seq(|parts|, i requires 0 <= i < |parts| => StringLit(parts[i]))
  }

  lemma {:induction false} LiteralsMean(parts: seq<string>)
    ensures ConcatMeaning(Literals(parts)) == Some(Text.Intercalate(parts, ""))
  {
    if parts != [] {
      LiteralsMean(parts[1..]);
      assert Literals(parts)[1..] == Literals(parts[1..]);
      if |parts| == 1 {
        assert parts[0] + "" == parts[0];
      } else {
        assert parts[0] + "" + Text.Intercalate(parts[1..], "") == parts[0] + Text.Intercalate(parts[1..], "");
      }
    }
  }

  /** Concatenation puts the receiver and all the arguments in a row, if the result takes at most 512
      bytes. Without arguments there is no limit. */
  lemma ConcatMeans(e: Expr, text: string, parts: seq<string>)
    requires Meaning(e) == Some(Str(text))
    ensures var all := text + Text.Intercalate(parts, "");
            Meaning(Call(e, Concat(Literals(parts))))
            == if parts == [] || |Utf8.Encode(all)| <= 512 then Some(Str(all)) else None
  {
    hide Utf8.Encode, Text.Intercalate, Text.SplitOn, Text.RepeatText, Mapped, Between, ArithValue, ConcatMeaning;
    LiteralsMean(parts);
    assert parts == [] ==> Text.Intercalate(parts, "") == "" by {
      NothingInARow();
    }
    assert text + "" == text;
  }

  lemma NothingInARow()
    ensures Text.Intercalate([], "") == ""
  {
  }

  /** An argument that is not a string spoils the call, wherever it stands. */
  lemma {:induction false} ConcatNeedsStrings(args: seq<Expr>, i: nat)
    requires i < |args| && (Meaning(args[i]).None? || Meaning(args[i]).value.Arr?)
    ensures ConcatMeaning(args).None?
  {
    hide Meaning;
    if i > 0 {
      ConcatNeedsStrings(args[1..], i - 1);
    }
  }

  // ----- Base64 -----

  /** `atob` means a text exactly when its argument, apart from outer white space, is the Base64 of the
      text's UTF-8. */
  lemma AtobMeans(payload: string, text: string)
    ensures Meaning(Atob(payload)) == Some(Str(text))
       <==> Text.Trim(payload) == Base64.Encode(Utf8.Encode(text))
  {
    hide Base64.Encode, Base64.Decode, Utf8.Encode, Utf8.Decode, Text.Trim;
    Base64.DecodeEncode(Utf8.Encode(text));
    Utf8.DecodeEncode(text);
    if Base64.Decode(Text.Trim(payload)).Some? {
      Base64.EncodeDecode(Text.Trim(payload));
      if Utf8.Decode(Base64.Decode(Text.Trim(payload)).value).Some? {
        Utf8.EncodeDecode(Base64.Decode(Text.Trim(payload)).value);
      }
    }
  }

  // ----- Character codes -----

  /** What a shifted code contributes: its character, if it is a Unicode scalar value, and else nothing. */
  lemma CodesMean(e: Expr, arrow: Arrow, codes: seq<int>, shift: int)
    requires Meaning(e) == Some(Arr(Codes(codes))) && Fits64(shift)
    ensures var r := Meaning(Call(e, Map(arrow, Some(shift))));
            var text := CharCodes(Codes(codes), shift);
            r == if |Utf8.Encode(text)| <= 64 then Some(Str(text)) else None
  {
    hide CharCodes, Utf8.Encode;
  }

  lemma {:induction false} CharCodesConcat(a: seq<int>, b: seq<int>, shift: int)
    ensures CharCodes(Codes(a + b), shift) == CharCodes(Codes(a), shift) + CharCodes(Codes(b), shift)
  {
    hide CharCode;
    if a == [] {
      assert a + b == b && Codes(a) == [];
    } else {
      CharCodesConcat(a[1..], b, shift);
      assert Codes(a + b)[1..] == Codes(a[1..] + b) && Codes(a)[1..] == Codes(a[1..]);
      assert Codes(a + b)[0] == Codes(a)[0];
      Assoc(CharCode(a[0], shift), CharCodes(Codes(a[1..]), shift), CharCodes(Codes(b), shift));
    }
  }

  /** Codes that name no character change nothing. */
  lemma SkippedCode(codes: seq<int>, more: seq<int>, code: int, shift: int)
    requires !(0 <= code - shift < 0xD800 || 0xE000 <= code - shift <= 0x10_FFFF)
    ensures CharCodes(Codes(codes + [code] + more), shift) == CharCodes(Codes(codes + more), shift)
  {
    hide CharCodes;
    NothingForCode(code, shift);
    CharCodesConcat(codes + [code], more, shift);
    CharCodesConcat(codes, [code], shift);
    CharCodesConcat(codes, more, shift);
    assert CharCodes(Codes(codes), shift) + "" == CharCodes(Codes(codes), shift);
  }

  lemma NothingForCode(code: int, shift: int)
    requires !(0 <= code - shift < 0xD800 || 0xE000 <= code - shift <= 0x10_FFFF)
    ensures CharCodes(Codes([code]), shift) == ""
  {
    assert Codes([code])[1..] == [];
  }

  // ----- Types -----

  /** Which receivers a method takes: strings, arrays, arrays of numbers, or, for `join`, both; a string
      joins to itself. */
  lemma ReceiverTypes(e: Expr, m: Method)
    ensures Meaning(e).None? ==> Meaning(Call(e, m)).None?
    ensures Meaning(e).Some? && Meaning(e).value.Arr? && (m.Substring? || m.Repeat? || m.Split? || m.Concat?) ==>
              Meaning(Call(e, m)).None?
    ensures Meaning(e).Some? && Meaning(e).value.Str? && (m.Reverse? || m.Map?) ==> Meaning(Call(e, m)).None?
    ensures Meaning(e).Some? && Meaning(e).value.Str? && m.Join? ==> Meaning(Call(e, m)) == Meaning(e)
    ensures m.Map? && Meaning(e).Some? && Meaning(e).value.Arr?
            && (exists i :: 0 <= i < |Meaning(e).value.items| && Meaning(e).value.items[i].Txt?) ==>
              Meaning(Call(e, m)).None?
  {
    hide Text.Intercalate, Text.SplitOn, Text.RepeatText, CharCodes, ArithValue, Limited;
  }
}
