/** A printer for the syntax trees of the ProxyNova feed. Printing a tree and evaluating the text gives
    what the tree means. */
module ExprPrinting {
  import opened Wrappers
  import opened ExprSyntax
  import opened ExprParser
  import opened ExprLayout
  import opened ExprReading
  import ExprMeaning
  import Text
  import Utf8

  // ----- The printer -----

  function DigitsOf(n: nat): (digits: seq<byte>)
    ensures digits != [] && AllDigitBytes(digits)
  {
    if n < 10 then [0x30 + n] else DigitsOf(n / 10) + [0x30 + n % 10]
  }

  function EscapeByte(b: byte): seq<byte> {
    if b == QUOTE || b == BACKSLASH then [BACKSLASH, b]
    else if b == 0x0A then [BACKSLASH, 0x6E]
    else if b == 0x09 then [BACKSLASH, 0x74]
    else if b == 0x0D then [BACKSLASH, 0x72]
    else [b]
  }

  function Escaped(bs: seq<byte>): seq<byte> {
    if bs == [] then [] else EscapeByte(bs[0]) + Escaped(bs[1..])
  }

  predicate Printable(token: Token) {
    match token
    case Mark(b) => b < 0x80 && !IsSpace(b)
    case Name(name) => IsAscii(name)
    case _ => true
  }

  function PrintToken(token: Token): seq<byte>
    requires Printable(token)
  {
    match token
    case Mark(b) => [b]
    case Name(name) => Word(name)
    case Numeral(n) => if n < 0 then [MINUS] + DigitsOf(-n) else DigitsOf(n)
    case Quoted(text) => [QUOTE] + Escaped(Utf8.Encode(text)) + [QUOTE]
  }

  function PrintTokens(tokens: seq<Token>): seq<byte>
    requires forall t | t in tokens :: Printable(t)
  {
    if tokens == [] then [] else PrintToken(tokens[0]) + PrintTokens(tokens[1..])
  }

  predicate AllPrintable(tokens: seq<Token>) {
    forall t | t in tokens :: Printable(t)
  }

  /** The text of a tree, without white space. */
  function Print(e: Expr): string
    requires WellFormed(e)
  {
    TokensPrintable(e);
    TokensAreText(Tokens(e));
    Utf8.Decode(PrintTokens(Tokens(e))).value
  }

  /** The UTF-8 of that text. */
  function Code(e: Expr): seq<byte>
    requires WellFormed(e)
  {
    TokensPrintable(e);
    PrintTokens(Tokens(e))
  }

  function ArithCode(a: Arith): seq<byte> {
    ArithPrintable(a);
    PrintTokens(ArithTokens(a))
  }

  // ----- Printed tokens are spellings -----

  lemma {:induction false} DecimalValueOf(n: nat)
    ensures DecimalValue(DigitsOf(n)) == n
  {
    var digits := DigitsOf(n);
    if n < 10 {
      assert digits[..0] == [];
    } else {
      DecimalValueOf(n / 10);
      assert digits[..|digits| - 1] == DigitsOf(n / 10);
    }
  }

  lemma {:induction false} UnescapedEscaped(bs: seq<byte>)
    ensures Unescaped(Escaped(bs)) == Some(bs)
  {
    if bs != [] {
      UnescapedEscaped(bs[1..]);
      var first := EscapeByte(bs[0]);
      assert Escaped(bs)[|first|..] == Escaped(bs[1..]);
      assert [bs[0]] + bs[1..] == bs;
    }
  }

  lemma PrintedSpells(token: Token)
    requires Printable(token)
    ensures Spells(PrintToken(token), token)
  {
    hide Escaped, Unescaped, DigitsOf, DecimalValue, Utf8.Encode, Utf8.Decode;
    match token
    case Mark(_) =>
    case Name(_) =>
    case Numeral(n) =>
      DecimalValueOf(if n < 0 then -n else n);
      assert n < 0 ==> ([MINUS] + DigitsOf(-n))[1..] == DigitsOf(-n);
    case Quoted(text) =>
      var inner := Escaped(Utf8.Encode(text));
      UnescapedEscaped(Utf8.Encode(text));
      Utf8.DecodeEncode(text);
      assert ([QUOTE] + inner + [QUOTE])[1..|inner| + 1] == inner;
  }

  /** Printing lays the tokens out with nothing between them. */
  lemma {:induction false} PrintLays(tokens: seq<Token>)
    requires AllPrintable(tokens)
    ensures Took(PrintTokens(tokens), tokens, [])
  {
    hide Took, Spells, PrintToken;
    if tokens == [] {
      TookNothing([]);
    } else {
      var first, rest := PrintToken(tokens[0]), PrintTokens(tokens[1..]);
      PrintedSpells(tokens[0]);
      assert [] + first + rest == PrintTokens(tokens);
      TookToken(PrintTokens(tokens), [], first, tokens[0], rest);
      PrintLays(tokens[1..]);
      TookThen(PrintTokens(tokens), [tokens[0]], rest, tokens[1..], []);
      assert [tokens[0]] + tokens[1..] == tokens;
    }
  }

  // ----- Printed tokens are text -----

  predicate IsText(bs: seq<byte>) {
    Utf8.Decode(bs).Some?
  }

  lemma TextConcat(a: seq<byte>, b: seq<byte>)
    requires IsText(a) && IsText(b)
    ensures IsText(a + b)
  {
    Utf8.EncodeDecode(a);
    Utf8.DecodeAfterEncoded(Utf8.Decode(a).value, b);
  }

  lemma {:induction false} AsciiIsText(bs: seq<byte>)
    requires forall i :: 0 <= i < |bs| ==> bs[i] < 0x80
    ensures IsText(bs)
  {
    if bs != [] {
      AsciiIsText(bs[1..]);
    }
  }

  lemma {:induction false} EscapedConcat(a: seq<byte>, b: seq<byte>)
    ensures Escaped(a + b) == Escaped(a) + Escaped(b)
  {
    hide EscapeByte;
    if a == [] {
      assert a + b == b;
    } else {
      EscapedConcat(a[1..], b);
      assert (a + b)[0] == a[0] && (a + b)[1..] == a[1..] + b;
      Assoc(EscapeByte(a[0]), Escaped(a[1..]), Escaped(b));
    }
  }

  lemma {:induction false} HighBytesAreNotEscaped(bs: seq<byte>)
    requires forall i :: 0 <= i < |bs| ==> bs[i] >= 0x80
    ensures Escaped(bs) == bs
  {
    if bs != [] {
      HighBytesAreNotEscaped(bs[1..]);
    }
  }

  lemma EscapedCharIsText(c: char)
    ensures IsText(Escaped(Utf8.EncodeChar(c)))
  {
    var bs := Utf8.EncodeChar(c);
    if c as int < 0x80 {
      assert Escaped(bs) == EscapeByte(bs[0]) + Escaped([]);
      AsciiIsText(Escaped(bs));
    } else {
      HighBytesAreNotEscaped(bs);
      Utf8.DecodeEncode([c]);
      EncodeOne(c);
    }
  }

  lemma {:induction false} EscapedIsText(text: string)
    ensures IsText(Escaped(Utf8.Encode(text)))
  {
    hide Utf8.EncodeChar, Utf8.Decode;
    if text == "" {
      AsciiIsText([]);
    } else {
      EscapedIsText(text[1..]);
      EscapedCharIsText(text[0]);
      EscapedConcat(Utf8.EncodeChar(text[0]), Utf8.Encode(text[1..]));
      TextConcat(Escaped(Utf8.EncodeChar(text[0])), Escaped(Utf8.Encode(text[1..])));
    }
  }

  lemma TokenIsText(token: Token)
    requires Printable(token)
    ensures IsText(PrintToken(token))
  {
    hide IsText, Escaped;
    match token
    case Mark(b) => AsciiIsText([b]);
    case Name(name) => AsciiIsText(Word(name));
    case Numeral(n) => AsciiIsText(PrintToken(token));
    case Quoted(text) =>
      EscapedIsText(text);
      AsciiIsText([QUOTE]);
      TextConcat([QUOTE], Escaped(Utf8.Encode(text)));
      TextConcat([QUOTE] + Escaped(Utf8.Encode(text)), [QUOTE]);
  }

  lemma {:induction false} TokensAreText(tokens: seq<Token>)
    requires AllPrintable(tokens)
    ensures IsText(PrintTokens(tokens))
  {
    hide IsText, PrintToken;
    if tokens == [] {
      AsciiIsText([]);
    } else {
      TokenIsText(tokens[0]);
      TokensAreText(tokens[1..]);
      TextConcat(PrintToken(tokens[0]), PrintTokens(tokens[1..]));
    }
  }

  lemma {:induction false} ArithPrintable(a: Arith)
    ensures AllPrintable(ArithTokens(a))
  {
    if !a.Num? {
      ArithPrintable(a.left);
    }
  }

  lemma {:induction false} CodesPrintable(codes: seq<int>)
    requires codes != []
    ensures AllPrintable(CodeTokens(codes))
  {
    if |codes| > 1 {
      CodesPrintable(codes[1..]);
    }
  }

  lemma NamePrintable(name: string)
    requires ValidIdent(name)
    ensures Printable(Name(name))
  {
  }

  lemma PrintableConcat(p: seq<Token>, q: seq<Token>)
    requires AllPrintable(p) && AllPrintable(q)
    ensures AllPrintable(p + q)
  {
  }

  lemma ArrowPrintable(arrow: Arrow)
    requires ValidIdent(arrow.param)
    ensures AllPrintable(ArrowTokens(arrow))
  {
    NamePrintable(arrow.param);
    hide ValidIdent, IsAscii;
  }

  lemma CodeCallPrintable(param: string, offset: Option<int>)
    requires ValidIdent(param)
    ensures AllPrintable(CodeCallTokens(param, offset))
  {
    NamePrintable(param);
    NamePrintable("fromCharCode");
    hide ValidIdent, IsAscii;
    assert AllPrintable([Name("fromCharCode"), Mark(OPEN), Name(param)]);
  }

  lemma BodyPrintable(arrow: Arrow, offset: Option<int>)
    requires ValidIdent(arrow.param)
    ensures AllPrintable(BodyTokens(arrow, offset))
  {
    NamePrintable("String");
    hide ValidIdent, IsAscii, CodeCallTokens;
    CodeCallPrintable(arrow.param, offset);
  }

  lemma MapPrintable(arrow: Arrow, offset: Option<int>)
    requires WellFormedMethod(Map(arrow, offset))
    ensures AllPrintable(MethodTokens(Map(arrow, offset)))
  {
    hide ValidIdent, ArrowTokens, BodyTokens;
    ArrowPrintable(arrow);
    BodyPrintable(arrow, offset);
    PrintableConcat(ArrowTokens(arrow), BodyTokens(arrow, offset));
  }

  lemma {:induction false} TokensPrintable(e: Expr)
    requires WellFormed(e)
    ensures AllPrintable(Tokens(e))
    decreases e, 1
  {
    match e
    case StringLit(_) =>
    case ArrayLit(codes) =>
      if codes != [] {
        CodesPrintable(codes);
      }
    case Atob(_) =>
    case Call(receiver, m) =>
      TokensPrintable(receiver);
      MethodPrintable(m);
  }

  lemma {:induction false} MethodPrintable(m: Method)
    requires WellFormedMethod(m)
    ensures AllPrintable(MethodTokens(m))
    decreases m, 0
  {
    match m
    case Substring(start, end) =>
      ArithPrintable(start);
      if end.Some? {
        ArithPrintable(end.value);
      }
    case Repeat(count) => ArithPrintable(count);
    case Split(_) =>
    case Reverse =>
    case Join(_) =>
    case Concat(args) => ArgsPrintable(args);
    case Map(arrow, offset) => MapPrintable(arrow, offset);
  }

  lemma {:induction false} ArgsPrintable(args: seq<Expr>)
    requires forall a | a in args :: WellFormed(a)
    ensures AllPrintable(ArgTokens(args))
    decreases args, 2
  {
    if args != [] {
      TokensPrintable(args[0]);
      ArgsPrintable(args[1..]);
    }
  }

  // ----- What the printed text looks like -----

  lemma {:induction false} PrintConcat(a: seq<Token>, b: seq<Token>)
    requires AllPrintable(a) && AllPrintable(b)
    ensures AllPrintable(a + b) && PrintTokens(a + b) == PrintTokens(a) + PrintTokens(b)
  {
    hide PrintToken;
    if a == [] {
      assert a + b == b;
    } else {
      PrintConcat(a[1..], b);
      assert (a + b)[0] == a[0] && (a + b)[1..] == a[1..] + b;
      Assoc(PrintToken(a[0]), PrintTokens(a[1..]), PrintTokens(b));
    }
  }

  lemma PrintOne(token: Token)
    requires Printable(token)
    ensures AllPrintable([token]) && PrintTokens([token]) == PrintToken(token)
  {
    hide PrintToken;
    assert [token][1..] == [] && PrintToken(token) + [] == PrintToken(token);
  }

  /** The text of a literal: quotes around the UTF-8 of its content, with escapes for five bytes. */
  lemma LiteralForm(text: string)
    ensures Code(StringLit(text)) == [0x22] + Escaped(Utf8.Encode(text)) + [0x22]
  {
    PrintOne(Quoted(text));
  }

  lemma EscapeForms(b: byte)
    ensures EscapeByte(b) == if b == 0x22 then Word("\\\"") else if b == 0x5C then Word("\\\\")
                             else if b == 0x0A then Word("\\n") else if b == 0x09 then Word("\\t")
                             else if b == 0x0D then Word("\\r") else [b]
  {
  }

  lemma {:induction false} DigitsAreDecimal(n: nat)
    ensures IsAscii(Text.NatText(n)) && DigitsOf(n) == Word(Text.NatText(n))
  {
    if n >= 10 {
      DigitsAreDecimal(n / 10);
    }
  }

  /** A name between two marks. */
  lemma CallOpens(name: string)
    requires IsAscii(name)
    ensures AllPrintable([Mark(DOT), Name(name), Mark(OPEN)])
    ensures PrintTokens([Mark(DOT), Name(name), Mark(OPEN)]) == [0x2E] + Word(name) + [0x28]
  {
    PrintOne(Mark(DOT));
    PrintOne(Name(name));
    PrintOne(Mark(OPEN));
    PrintConcat([Mark(DOT)], [Name(name)]);
    PrintConcat([Mark(DOT)] + [Name(name)], [Mark(OPEN)]);
    assert [Mark(DOT)] + [Name(name)] + [Mark(OPEN)] == [Mark(DOT), Name(name), Mark(OPEN)];
  }

  /** A call: the receiver, a dot, the method's name, and its arguments in parentheses. */
  lemma CallForm(e: Expr, m: Method)
    requires WellFormed(Call(e, m))
    ensures AllPrintable(MethodTokens(m)[1..])
    ensures Code(Call(e, m)) == Code(e) + ([0x2E] + Word(MethodName(m)) + [0x28] + PrintTokens(MethodTokens(m)[1..]))
  {
    hide PrintTokens, Tokens, MethodTokens, AllPrintable;
    var front, rest := [Mark(DOT), Name(MethodName(m)), Mark(OPEN)], MethodTokens(m)[1..];
    TokensPrintable(e);
    MethodPrintable(m);
    PrintableRest(MethodTokens(m));
    CallOpens(MethodName(m));
    PrintConcat(front, rest);
    PrintConcat(Tokens(e), front + rest);
    assert MethodTokens(m) == [Mark(OPEN)] + rest;
    assert [Mark(DOT), Name(MethodName(m))] + MethodTokens(m) == front + rest;
    CallTokens(e, m);
  }

  lemma CallTokens(e: Expr, m: Method)
    requires WellFormed(Call(e, m))
    ensures Tokens(Call(e, m)) == Tokens(e) + ([Mark(DOT), Name(MethodName(m))] + MethodTokens(m))
  {
  }

  lemma PrintableRest(tokens: seq<Token>)
    requires AllPrintable(tokens) && tokens != []
    ensures AllPrintable(tokens[1..])
  {
  }

  /** The methods' names. */
  lemma MethodNames(m: Method)
    ensures MethodName(m) == match m
                             case Substring(_, _) => "substring"
                             case Repeat(_) => "repeat"
                             case Split(_) => "split"
                             case Reverse => "reverse"
                             case Join(_) => "join"
                             case Concat(_) => "concat"
                             case Map(_, _) => "map"
  {
  }

  /** One bound or count, or two. */
  lemma ArithForms(start: Arith, end: Arith)
    ensures AllPrintable(MethodTokens(Repeat(start))[1..]) && AllPrintable(MethodTokens(Substring(start, None))[1..])
    ensures AllPrintable(MethodTokens(Substring(start, Some(end)))[1..])
    ensures PrintTokens(MethodTokens(Repeat(start))[1..]) == ArithCode(start) + [0x29]
    ensures PrintTokens(MethodTokens(Substring(start, None))[1..]) == ArithCode(start) + [0x29]
    ensures PrintTokens(MethodTokens(Substring(start, Some(end)))[1..])
         == ArithCode(start) + ([0x2C] + (ArithCode(end) + [0x29]))
  {
    hide PrintTokens, ArithTokens, AllPrintable;
    ArithPrintable(start);
    ArithPrintable(end);
    PrintOne(Mark(CLOSE));
    PrintOne(Mark(COMMA));
    var a, b, close := ArithTokens(start), ArithTokens(end), [Mark(CLOSE)];
    PrintConcat(a, close);
    PrintConcat(b, close);
    PrintConcat([Mark(COMMA)], b + close);
    PrintConcat(a, [Mark(COMMA)] + (b + close));
    assert MethodTokens(Repeat(start))[1..] == a + close;
    assert EndTokens(None) == close;
    assert MethodTokens(Substring(start, None))[1..] == a + close;
    assert EndTokens(Some(end)) == [Mark(COMMA)] + (b + close);
    assert MethodTokens(Substring(start, Some(end)))[1..] == a + ([Mark(COMMA)] + (b + close));
  }

  lemma PrintCons(token: Token, rest: seq<Token>)
    requires Printable(token) && AllPrintable(rest)
    ensures AllPrintable([token] + rest) && PrintTokens([token] + rest) == PrintToken(token) + PrintTokens(rest)
  {
    hide PrintToken;
    assert ([token] + rest)[1..] == rest;
  }

  /** An integer is written in decimal. */
  lemma NumeralForm(n: int)
    ensures IsAscii(Text.IntText(n)) && PrintToken(Numeral(n)) == Word(Text.IntText(n))
  {
    hide DigitsOf, Text.NatText;
    DigitsAreDecimal(if n < 0 then -n else n);
    if n < 0 {
      assert Word(Text.IntText(n)) == [0x2D] + Word(Text.NatText(-n));
    }
  }

  /** A chain: its literals with the signs between them. */
  lemma ChainForm(left: Arith, n: int)
    ensures ArithCode(Num(n)) == PrintToken(Numeral(n))
    ensures ArithCode(Plus(left, n)) == ArithCode(left) + ([0x2B] + PrintToken(Numeral(n)))
    ensures ArithCode(Minus(left, n)) == ArithCode(left) + ([0x2D] + PrintToken(Numeral(n)))
  {
    hide PrintTokens;
    ArithPrintable(left);
    PrintOne(Numeral(n));
    PrintOne(Mark(PLUS));
    PrintOne(Mark(MINUS));
    PrintCons(Mark(PLUS), [Numeral(n)]);
    PrintCons(Mark(MINUS), [Numeral(n)]);
    assert [Mark(PLUS)] + [Numeral(n)] == [Mark(PLUS), Numeral(n)];
    assert [Mark(MINUS)] + [Numeral(n)] == [Mark(MINUS), Numeral(n)];
    PrintConcat(ArithTokens(left), [Mark(PLUS), Numeral(n)]);
    PrintConcat(ArithTokens(left), [Mark(MINUS), Numeral(n)]);
  }

  /** One literal, or nothing, between the parentheses. */
  lemma ShortForms(separator: string)
    ensures AllPrintable(MethodTokens(Split(separator))[1..]) && AllPrintable(MethodTokens(Join(separator))[1..])
    ensures AllPrintable(MethodTokens(Reverse)[1..])
    ensures PrintTokens(MethodTokens(Split(separator))[1..]) == Code(StringLit(separator)) + [0x29]
    ensures PrintTokens(MethodTokens(Join(separator))[1..]) == Code(StringLit(separator)) + [0x29]
    ensures PrintTokens(MethodTokens(Reverse)[1..]) == [0x29]
  {
    hide PrintTokens;
    PrintOne(Mark(CLOSE));
    PrintOne(Quoted(separator));
    PrintCons(Quoted(separator), [Mark(CLOSE)]);
    assert MethodTokens(Split(separator))[1..] == [Quoted(separator)] + [Mark(CLOSE)];
    assert MethodTokens(Join(separator))[1..] == [Quoted(separator)] + [Mark(CLOSE)];
    assert MethodTokens(Reverse)[1..] == [Mark(CLOSE)];
  }

  lemma AtobForm(payload: string)
    ensures Code(Atob(payload)) == Word("atob") + ([0x28] + (Code(StringLit(payload)) + [0x29]))
  {
    hide PrintTokens;
    PrintOne(Mark(CLOSE));
    PrintOne(Quoted(payload));
    PrintCons(Quoted(payload), [Mark(CLOSE)]);
    PrintCons(Mark(OPEN), [Quoted(payload)] + [Mark(CLOSE)]);
    PrintCons(Name("atob"), [Mark(OPEN)] + ([Quoted(payload)] + [Mark(CLOSE)]));
    assert Tokens(Atob(payload)) == [Name("atob")] + ([Mark(OPEN)] + ([Quoted(payload)] + [Mark(CLOSE)]));
  }

  /** Arguments with commas between them. */
  lemma ArgsForm(args: seq<Expr>)
    requires forall a | a in args :: WellFormed(a)
    ensures AllPrintable(ArgTokens(args)) && (args != [] ==> AllPrintable(ArgTokens(args[1..])))
    ensures PrintTokens(ArgTokens(args))
         == if args == [] then [0x29]
            else if |args| == 1 then Code(args[0]) + [0x29]
            else Code(args[0]) + ([0x2C] + PrintTokens(ArgTokens(args[1..])))
  {
    hide PrintTokens, WellFormed, Tokens;
    ArgsPrintable(args);
    PrintOne(Mark(CLOSE));
    if args != [] {
      TokensPrintable(args[0]);
      PrintConcat(Tokens(args[0]), [Mark(CLOSE)]);
      ArgsPrintable(args[1..]);
      if |args| > 1 {
        PrintCons(Mark(COMMA), ArgTokens(args[1..]));
        PrintConcat(Tokens(args[0]), [Mark(COMMA)] + ArgTokens(args[1..]));
      }
    }
  }

  lemma CodesSplit(codes: seq<int>)
    requires codes != []
    ensures CodeTokens(codes)
         == if |codes| == 1 then [Numeral(codes[0])]
            else [Numeral(codes[0])] + ([Mark(COMMA)] + CodeTokens(codes[1..]))
  {
    if |codes| > 1 {
      assert [Numeral(codes[0]), Mark(COMMA)] == [Numeral(codes[0])] + [Mark(COMMA)];
      Assoc([Numeral(codes[0])], [Mark(COMMA)], CodeTokens(codes[1..]));
    }
  }

  /** Character codes with commas between them. */
  lemma CodesForm(codes: seq<int>)
    requires codes != []
    ensures AllPrintable(CodeTokens(codes)) && (|codes| > 1 ==> AllPrintable(CodeTokens(codes[1..])))
    ensures PrintTokens(CodeTokens(codes))
         == if |codes| == 1 then PrintToken(Numeral(codes[0]))
            else PrintToken(Numeral(codes[0])) + ([0x2C] + PrintTokens(CodeTokens(codes[1..])))
  {
    hide PrintTokens, AllPrintable, CodeTokens;
    CodesSplit(codes);
    CodesPrintable(codes);
    PrintOne(Numeral(codes[0]));
    if |codes| > 1 {
      CodesPrintable(codes[1..]);
      PrintCons(Mark(COMMA), CodeTokens(codes[1..]));
      PrintCons(Numeral(codes[0]), [Mark(COMMA)] + CodeTokens(codes[1..]));
    }
  }

  /** An array: its codes in brackets. */
  lemma ArrayForm(codes: seq<int>)
    ensures codes == [] ==> Code(ArrayLit(codes)) == [0x5B, 0x5D]
    ensures codes != [] ==>
              AllPrintable(CodeTokens(codes))
              && Code(ArrayLit(codes)) == [0x5B] + (PrintTokens(CodeTokens(codes)) + [0x5D])
  {
    hide PrintTokens;
    PrintOne(Mark(RBRACKET));
    if codes == [] {
      PrintCons(Mark(LBRACKET), [Mark(RBRACKET)]);
      assert Tokens(ArrayLit([])) == [Mark(LBRACKET)] + [Mark(RBRACKET)];
    } else {
      CodesPrintable(codes);
      PrintConcat(CodeTokens(codes), [Mark(RBRACKET)]);
      PrintCons(Mark(LBRACKET), CodeTokens(codes) + [Mark(RBRACKET)]);
      assert Tokens(ArrayLit(codes)) == [Mark(LBRACKET)] + (CodeTokens(codes) + [Mark(RBRACKET)]);
    }
  }

  lemma OffsetForm(offset: Option<int>)
    ensures AllPrintable(OffsetTokens(offset))
    ensures PrintTokens(OffsetTokens(offset))
         == (if offset.Some? then [0x2D] + PrintToken(Numeral(offset.value)) else []) + [0x29, 0x29]
  {
    hide PrintTokens, AllPrintable;
    PrintOne(Mark(CLOSE));
    PrintCons(Mark(CLOSE), [Mark(CLOSE)]);
    var tail := [Mark(CLOSE)] + [Mark(CLOSE)];
    if offset.Some? {
      PrintCons(Numeral(offset.value), tail);
      PrintCons(Mark(MINUS), [Numeral(offset.value)] + tail);
      assert OffsetTokens(offset) == [Mark(MINUS)] + ([Numeral(offset.value)] + tail);
    } else {
      assert OffsetTokens(None) == tail;
    }
  }

  /** The callback's call: the parameter, an offset behind a minus sign if there is one. */
  lemma CodeCallForm(param: string, offset: Option<int>)
    requires ValidIdent(param)
    ensures AllPrintable(CodeCallTokens(param, offset)) && AllPrintable(OffsetTokens(offset))
    ensures PrintTokens(CodeCallTokens(param, offset))
         == Word("fromCharCode") + ([0x28] + (Word(param) + PrintTokens(OffsetTokens(offset))))
  {
    hide PrintTokens, ValidIdent, AllPrintable, OffsetTokens;
    NamePrintable(param);
    OffsetForm(offset);
    PrintCons(Name(param), OffsetTokens(offset));
    PrintCons(Mark(OPEN), [Name(param)] + OffsetTokens(offset));
    PrintCons(Name("fromCharCode"), [Mark(OPEN)] + ([Name(param)] + OffsetTokens(offset)));
    assert CodeCallTokens(param, offset)
        == [Name("fromCharCode")] + ([Mark(OPEN)] + ([Name(param)] + OffsetTokens(offset)));
  }

  /** An arrow function: its parameter, in parentheses or not, `=>`, and the call, qualified or not. */
  lemma MapForm(arrow: Arrow, offset: Option<int>)
    requires ValidIdent(arrow.param)
    ensures AllPrintable(MethodTokens(Map(arrow, offset))[1..]) && AllPrintable(CodeCallTokens(arrow.param, offset))
    ensures PrintTokens(MethodTokens(Map(arrow, offset))[1..])
         == (if arrow.parenthesised then [0x28] + (Word(arrow.param) + [0x29]) else Word(arrow.param))
            + ([0x3D, 0x3E]
            + ((if arrow.qualified then Word("String") + [0x2E] else [])
            + PrintTokens(CodeCallTokens(arrow.param, offset))))
  {
    hide PrintTokens, ValidIdent, CodeCallTokens;
    var call := CodeCallTokens(arrow.param, offset);
    NamePrintable(arrow.param);
    CodeCallForm(arrow.param, offset);
    QualifierForm();
    ParamForm(arrow.param);
    ArrowSignForm();
    var prefix := if arrow.qualified then [Name("String"), Mark(DOT)] else [];
    var param := if arrow.parenthesised then [Mark(OPEN), Name(arrow.param), Mark(CLOSE)] else [Name(arrow.param)];
    PrintConcat(prefix, call);
    PrintConcat([Mark(EQUALS), Mark(GREATER)], prefix + call);
    PrintConcat(param, [Mark(EQUALS), Mark(GREATER)] + (prefix + call));
    Assoc(param, [Mark(EQUALS), Mark(GREATER)], prefix + call);
    assert MethodTokens(Map(arrow, offset))[1..] == param + ([Mark(EQUALS), Mark(GREATER)] + (prefix + call));
    assert PrintTokens([]) == [] by {
      PrintNone();
    }
  }

  lemma PrintNone()
    ensures AllPrintable([]) && PrintTokens([]) == []
  {
  }

  lemma QualifierForm()
    ensures AllPrintable([Name("String"), Mark(DOT)])
    ensures PrintTokens([Name("String"), Mark(DOT)]) == Word("String") + [0x2E]
  {
    PrintOne(Mark(DOT));
    PrintCons(Name("String"), [Mark(DOT)]);
    assert [Name("String")] + [Mark(DOT)] == [Name("String"), Mark(DOT)];
  }

  lemma ArrowSignForm()
    ensures AllPrintable([Mark(EQUALS), Mark(GREATER)])
    ensures PrintTokens([Mark(EQUALS), Mark(GREATER)]) == [0x3D, 0x3E]
  {
    PrintOne(Mark(GREATER));
    PrintCons(Mark(EQUALS), [Mark(GREATER)]);
    assert [Mark(EQUALS)] + [Mark(GREATER)] == [Mark(EQUALS), Mark(GREATER)];
  }

  lemma ParamForm(param: string)
    requires IsAscii(param)
    ensures AllPrintable([Name(param)]) && AllPrintable([Mark(OPEN), Name(param), Mark(CLOSE)])
    ensures PrintTokens([Name(param)]) == Word(param)
    ensures PrintTokens([Mark(OPEN), Name(param), Mark(CLOSE)]) == [0x28] + (Word(param) + [0x29])
  {
    PrintOne(Name(param));
    PrintOne(Mark(CLOSE));
    PrintCons(Name(param), [Mark(CLOSE)]);
    PrintCons(Mark(OPEN), [Name(param)] + [Mark(CLOSE)]);
    assert [Mark(OPEN)] + ([Name(param)] + [Mark(CLOSE)]) == [Mark(OPEN), Name(param), Mark(CLOSE)];
  }

  // ----- Main result -----

  /** For every tree, evaluating its printed text gives the tree's string, and fails exactly when the
      tree does not mean a string: a type, arithmetic or size check fails in it. */
  lemma {:induction false} PrintThenEvaluate(e: Expr)
    requires WellFormed(e)
    ensures TextMeaning(Utf8.Encode(Print(e)))
         == match ExprMeaning.Meaning(e) case Some(Str(text)) => Some(text) case _ => None
  {
    hide Tokens, WellFormed, Utf8.Encode, Utf8.Decode, PrintTokens, ParseTree, ExprMeaning.Meaning;
    TokensPrintable(e);
    TokensAreText(Tokens(e));
    Utf8.EncodeDecode(PrintTokens(Tokens(e)));
    PrintLays(Tokens(e));
    AcceptsExactlyLayouts(e, Utf8.Encode(Print(e)));
  }
}
