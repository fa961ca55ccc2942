/** Writing a ProxyNova syntax tree as text, with any white space in front of each token, and the
    proof that the grammar reads the same tree back. */
module ExprLayout {
  import opened Wrappers
  import opened ExprSyntax
  import opened ExprParser
  import Utf8

  // ----- Tokens and their spellings -----

  datatype Token = Mark(b: byte) | Name(name: string) | Numeral(n: int) | Quoted(text: string)

  predicate IsAscii(s: string) {
    forall i :: 0 <= i < |s| ==> s[i] as int < 0x80
  }

  function Word(s: string): (token: seq<byte>)
    requires IsAscii(s)
    ensures |token| == |s| && forall i :: 0 <= i < |s| ==> token[i] == s[i] as int
  {
    seq(|s|, i requires 0 <= i < |s| => s[i] as int)
  }

  predicate ValidIdent(s: string) {
    && s != "" && IsAscii(s)
    && IsIdentStart(s[0] as int)
    && forall i :: 0 <= i < |s| ==> IsIdentByte(s[i] as int)
  }

  predicate AllDigitBytes(bs: seq<byte>) {
    forall i :: 0 <= i < |bs| ==> IsDigitByte(bs[i])
  }

  /** The integer a numeral spells: an optional sign and digits, leading zeros allowed. */
  function NumeralValue(bs: seq<byte>): Option<int> {
    var digits := if HasSign(bs) then bs[1..] else bs;
    if digits == [] || !AllDigitBytes(digits) then None
    else Some(Signed(HasSign(bs), DecimalValue(digits)))
  }

  /** What stands between the quotes of a literal, with its escapes resolved. */
  function Unescaped(bs: seq<byte>): Option<seq<byte>> {
    if bs == [] then Some([])
    else if bs[0] == QUOTE then None
    else if bs[0] == BACKSLASH then
      if |bs| == 1 then None
      else
        var b :- Unescape(bs[1]);
        var rest :- Unescaped(bs[2..]);
        Some([b] + rest)
    else
      var rest :- Unescaped(bs[1..]);
      Some([bs[0]] + rest)
  }

  function QuotedValue(bs: seq<byte>): Option<string> {
    if |bs| < 2 || bs[0] != QUOTE || bs[|bs| - 1] != QUOTE then None
    else
      var inner :- Unescaped(bs[1..|bs| - 1]);
      Utf8.Decode(inner)
  }

  predicate Spells(bs: seq<byte>, token: Token) {
    match token
    case Mark(b) => bs == [b]
    case Name(name) => IsAscii(name) && bs == Word(name)
    case Numeral(n) => NumeralValue(bs) == Some(n)
    case Quoted(text) => QuotedValue(bs) == Some(text)
  }

  function ArithTokens(a: Arith): seq<Token> {
    match a
    case Num(n) => [Numeral(n)]
    case Plus(left, n) => ArithTokens(left) + [Mark(PLUS), Numeral(n)]
    case Minus(left, n) => ArithTokens(left) + [Mark(MINUS), Numeral(n)]
  }

  function CodeTokens(codes: seq<int>): seq<Token>
    requires codes != []
  {
    if |codes| == 1 then [Numeral(codes[0])]
    else [Numeral(codes[0]), Mark(COMMA)] + CodeTokens(codes[1..])
  }

  /** Callback parameters must be identifiers. */
  predicate WellFormed(e: Expr) {
    match e
    case StringLit(_) => true
    case ArrayLit(_) => true
    case Atob(_) => true
    case Call(receiver, m) => WellFormed(receiver) && WellFormedMethod(m)
  }

  predicate WellFormedMethod(m: Method) {
    match m
    case Map(arrow, _) => ValidIdent(arrow.param)
    case Concat(args) => forall a | a in args :: WellFormed(a)
    case _ => true
  }

  function Tokens(e: Expr): (tokens: seq<Token>)
    requires WellFormed(e)
    ensures tokens != []
    decreases e
  {
    match e
    case StringLit(text) => [Quoted(text)]
    case ArrayLit(codes) =>
      [Mark(LBRACKET)] + (if codes == [] then [] else CodeTokens(codes)) + [Mark(RBRACKET)]
    case Atob(payload) => [Name("atob"), Mark(OPEN), Quoted(payload), Mark(CLOSE)]
    case Call(receiver, m) =>
      Tokens(receiver) + ([Mark(DOT), Name(MethodName(m))] + MethodTokens(m))
  }

  lemma LowerIsIdent(name: string)
    requires name != "" && forall i :: 0 <= i < |name| ==> 'a' <= name[i] <= 'z'
    ensures ValidIdent(name)
  {
  }

  function MethodName(m: Method): (name: string)
    ensures ValidIdent(name)
  {
    var name := match m
                case Substring(_, _) => "substring"
                case Repeat(_) => "repeat"
                case Split(_) => "split"
                case Reverse => "reverse"
                case Join(_) => "join"
                case Concat(_) => "concat"
                case Map(_, _) => "map";
    LowerIsIdent(name);
    name
  }

  /** Everything behind the method's name. */
  function MethodTokens(m: Method): (tokens: seq<Token>)
    requires WellFormedMethod(m)
    ensures tokens != [] && tokens[0] == Mark(OPEN)
    decreases m
  {
    match m
    case Substring(start, end) =>
      [Mark(OPEN)] + (ArithTokens(start) + EndTokens(end))
    case Repeat(count) => [Mark(OPEN)] + (ArithTokens(count) + [Mark(CLOSE)])
    case Split(separator) => [Mark(OPEN), Quoted(separator), Mark(CLOSE)]
    case Reverse => [Mark(OPEN), Mark(CLOSE)]
    case Join(separator) => [Mark(OPEN), Quoted(separator), Mark(CLOSE)]
    case Concat(args) => [Mark(OPEN)] + ArgTokens(args)
    case Map(arrow, offset) =>
      [Mark(OPEN)] + (ArrowTokens(arrow) + BodyTokens(arrow, offset))
  }

  function EndTokens(end: Option<Arith>): seq<Token> {
    (if end.Some? then [Mark(COMMA)] + ArithTokens(end.value) else []) + [Mark(CLOSE)]
  }

  /** The arguments and the closing parenthesis. */
  function ArgTokens(args: seq<Expr>): (tokens: seq<Token>)
    requires forall a | a in args :: WellFormed(a)
    ensures tokens != []
    decreases args
  {
    if args == [] then [Mark(CLOSE)]
    else if |args| == 1 then Tokens(args[0]) + [Mark(CLOSE)]
    else Tokens(args[0]) + ([Mark(COMMA)] + ArgTokens(args[1..]))
  }

  function ArrowTokens(arrow: Arrow): seq<Token>
    requires ValidIdent(arrow.param)
  {
    (if arrow.parenthesised then [Mark(OPEN), Name(arrow.param), Mark(CLOSE)] else [Name(arrow.param)])
    + [Mark(EQUALS), Mark(GREATER)]
  }

  function BodyTokens(arrow: Arrow, offset: Option<int>): seq<Token>
    requires ValidIdent(arrow.param)
  {
    (if arrow.qualified then [Name("String"), Mark(DOT)] else []) + CodeCallTokens(arrow.param, offset)
  }

  function CodeCallTokens(param: string, offset: Option<int>): seq<Token>
    requires ValidIdent(param)
  {
    [Name("fromCharCode"), Mark(OPEN), Name(param)] + OffsetTokens(offset)
  }

  function OffsetTokens(offset: Option<int>): seq<Token> {
    (if offset.Some? then [Mark(MINUS), Numeral(offset.value)] else []) + [Mark(CLOSE), Mark(CLOSE)]
  }

  // ----- Layout -----

  /** A token and the white space in front of it. */
  datatype Piece = Piece(gap: seq<byte>, token: seq<byte>)

  predicate AllSpace(gap: seq<byte>) {
    forall i :: 0 <= i < |gap| ==> IsSpace(gap[i])
  }

  predicate Lays(pieces: seq<Piece>, tokens: seq<Token>) {
    && |pieces| == |tokens|
    && forall i :: 0 <= i < |pieces| ==> Spells(pieces[i].token, tokens[i]) && AllSpace(pieces[i].gap)
  }

  function Laid(pieces: seq<Piece>): seq<byte> {
    if pieces == [] then [] else pieces[0].gap + pieces[0].token + Laid(pieces[1..])
  }

  lemma {:induction false} LaidConcat(p: seq<Piece>, q: seq<Piece>)
    ensures Laid(p + q) == Laid(p) + Laid(q)
  {
    if p == [] {
      assert p + q == q;
    } else {
      LaidConcat(p[1..], q);
      var head := p[0].gap + p[0].token;
      assert (p + q)[0] == p[0] && (p + q)[1..] == p[1..] + q;
      assert head + (Laid(p[1..]) + Laid(q)) == head + Laid(p[1..]) + Laid(q);
    }
  }

  lemma NothingLaid()
    ensures Laid([]) == []
  {
  }

  lemma Unroll(pieces: seq<Piece>, tail: seq<byte>)
    requires pieces != []
    ensures Laid(pieces) + tail == pieces[0].gap + pieces[0].token + (Laid(pieces[1..]) + tail)
  {
  }

  /** A layout of two token lists is a layout of the first followed by a layout of the second. */
  lemma Cut(pieces: seq<Piece>, first: seq<Token>, second: seq<Token>, tail: seq<byte>)
    requires Lays(pieces, first + second)
    ensures Lays(pieces[..|first|], first) && Lays(pieces[|first|..], second)
    ensures Laid(pieces) + tail == Laid(pieces[..|first|]) + (Laid(pieces[|first|..]) + tail)
  {
    var tokens := first + second;
    forall i | 0 <= i < |second|
      ensures Spells(pieces[|first|..][i].token, second[i]) && AllSpace(pieces[|first|..][i].gap)
    {
      assert Spells(pieces[|first| + i].token, tokens[|first| + i]);
    }
    forall i | 0 <= i < |first|
      ensures Spells(pieces[..|first|][i].token, first[i]) && AllSpace(pieces[..|first|][i].gap)
    {
      assert Spells(pieces[i].token, tokens[i]);
    }
    LaidConcat(pieces[..|first|], pieces[|first|..]);
    assert pieces[..|first|] + pieces[|first|..] == pieces;
  }

  // ----- Reading one token -----

  lemma {:induction false} SkipGap(gap: seq<byte>, s: seq<byte>)
    requires AllSpace(gap)
    ensures Skip(gap + s) == Skip(s)
  {
    if gap == [] {
      assert gap + s == s;
    } else {
      SkipGap(gap[1..], s);
      assert (gap + s)[1..] == gap[1..] + s;
    }
  }

  /** White space and a visible token: the token is what comes next. */
  lemma SkipToToken(gap: seq<byte>, token: seq<byte>, rest: seq<byte>)
    requires AllSpace(gap) && token != [] && !IsSpace(token[0])
    ensures Skip(gap + token + rest) == token + rest
  {
    SkipGap(gap, token + rest);
    assert gap + token + rest == gap + (token + rest);
  }

  lemma ReadPunctuation(s: seq<byte>, gap: seq<byte>, b: byte, rest: seq<byte>)
    requires AllSpace(gap) && !IsSpace(b) && s == gap + [b] + rest
    ensures Skip(s) == [b] + rest && Skip(s)[1..] == rest
    ensures NextIs(s, b) && Expect(s, b) == Some(rest)
    ensures forall c: byte :: c != b ==> !NextIs(s, c)
  {
    SkipToToken(gap, [b], rest);
  }

  lemma {:induction false} IdentLengthOf(word: seq<byte>, rest: seq<byte>)
    requires forall i :: 0 <= i < |word| ==> IsIdentByte(word[i])
    requires rest == [] || !IsIdentByte(rest[0])
    ensures IdentLength(word + rest) == |word|
  {
    if word == [] {
      assert word + rest == rest;
    } else {
      IdentLengthOf(word[1..], rest);
      assert (word + rest)[1..] == word[1..] + rest;
    }
  }

  lemma ReadIdent(s: seq<byte>, gap: seq<byte>, name: string, rest: seq<byte>)
    requires AllSpace(gap) && ValidIdent(name) && s == gap + Word(name) + rest
    requires rest == [] || !IsIdentByte(rest[0])
    ensures Ident(s) == Some((name, rest))
    ensures Skip(s) != [] && Skip(s)[0] == name[0] as int
  {
    var word := Word(name);
    SkipToToken(gap, word, rest);
    IdentLengthOf(word, rest);
    assert (word + rest)[..|word|] == word && (word + rest)[|word|..] == rest;
    assert TextOf(word) == name;
  }

  lemma {:induction false} DigitCountOf(digits: seq<byte>, rest: seq<byte>)
    requires forall i :: 0 <= i < |digits| ==> IsDigitByte(digits[i])
    requires rest == [] || !IsDigitByte(rest[0])
    ensures DigitCount(digits + rest) == |digits|
  {
    if digits == [] {
      assert digits + rest == rest;
    } else {
      DigitCountOf(digits[1..], rest);
      assert (digits + rest)[1..] == digits[1..] + rest;
    }
  }

  lemma ReadNumber(s: seq<byte>, gap: seq<byte>, numeral: seq<byte>, n: int, rest: seq<byte>)
    requires AllSpace(gap) && NumeralValue(numeral) == Some(n) && s == gap + numeral + rest
    requires rest == [] || !IsDigitByte(rest[0])
    ensures Number(s) == Some((n, rest))
    ensures forall b: byte :: !IsDigitByte(b) && b != MINUS ==> !NextIs(s, b)
  {
    hide Skip, DigitCount, DecimalValue;
    var digits := if HasSign(numeral) then numeral[1..] else numeral;
    SkipToToken(gap, numeral, rest);
    var t := numeral + rest;
    var u := if HasSign(t) then t[1..] else t;
    assert u == digits + rest;
    DigitCountOf(digits, rest);
    assert u[..|digits|] == digits && u[|digits|..] == rest;
  }

  lemma {:induction false} StringBodyOf(raw: seq<byte>, rest: seq<byte>, acc: seq<byte>)
    requires Unescaped(raw).Some?
    ensures StringBody(raw + [QUOTE] + rest, acc) == Some((acc + Unescaped(raw).value, rest))
    decreases |raw|
  {
    hide Unescape;
    var s := raw + [QUOTE] + rest;
    var out := Unescaped(raw).value;
    if raw == [] {
      assert s == [QUOTE] + rest;
      assert acc + out == acc;
    } else {
      var k := if raw[0] == BACKSLASH then 2 else 1;
      StringBodyOf(raw[k..], rest, acc + [out[0]]);
      assert s[k..] == raw[k..] + [QUOTE] + rest;
      assert out[1..] == Unescaped(raw[k..]).value;
      assert acc + [out[0]] + out[1..] == acc + out;
    }
  }

  lemma ReadString(s: seq<byte>, gap: seq<byte>, literal: seq<byte>, text: string, rest: seq<byte>)
    requires AllSpace(gap) && QuotedValue(literal) == Some(text) && s == gap + literal + rest
    ensures StringToken(s) == Some((text, rest))
    ensures NextIs(s, QUOTE)
  {
    hide Skip, Unescaped, Utf8.Decode, StringBody;
    var raw := literal[1..|literal| - 1];
    var body := raw + [QUOTE] + rest;
    assert s == gap + [QUOTE] + body;
    ReadPunctuation(s, gap, QUOTE, body);
    StringBodyOf(raw, rest, []);
    assert [] + Unescaped(raw).value == Unescaped(raw).value;
  }

  // ----- Reading phrases -----

  /** What may stand behind a number or an identifier. */
  predicate Punctuated(s: seq<byte>) {
    s == [] || (!IsIdentByte(s[0]) && !IsDigitByte(s[0]))
  }

  lemma PunctuatedNext(pieces: seq<Piece>, tail: seq<byte>)
    requires pieces != [] && AllSpace(pieces[0].gap)
    requires pieces[0].token != [] && !IsIdentByte(pieces[0].token[0])
    ensures Punctuated(Laid(pieces) + tail)
  {
    Unroll(pieces, tail);
  }

  /** Reads the one punctuation mark the pieces start with. */
  lemma ReadMark(pieces: seq<Piece>, b: byte, tail: seq<byte>)
    requires pieces != [] && AllSpace(pieces[0].gap) && Spells(pieces[0].token, Mark(b)) && !IsSpace(b)
    ensures var s := Laid(pieces) + tail;
            && Skip(s) != [] && Skip(s)[1..] == Laid(pieces[1..]) + tail
            && NextIs(s, b) && Expect(s, b) == Some(Laid(pieces[1..]) + tail)
            && (forall c: byte :: c != b ==> !NextIs(s, c))
  {
    Unroll(pieces, tail);
    ReadPunctuation(Laid(pieces) + tail, pieces[0].gap, b, Laid(pieces[1..]) + tail);
  }

  lemma {:induction false} ReadsArith(a: Arith, pieces: seq<Piece>, tail: seq<byte>)
    requires Lays(pieces, ArithTokens(a)) && Punctuated(tail)
    ensures ArithPhrase(Laid(pieces) + tail) == ArithTail(a, tail)
    decreases a, 0
  {
    hide Skip, Number, NumeralValue;
    match a
    case Num(n) =>
      Unroll(pieces, tail);
      assert Laid(pieces[1..]) + tail == tail;
      ReadNumber(Laid(pieces) + tail, pieces[0].gap, pieces[0].token, n, tail);
    case Plus(left, n) => ReadsArithStep(left, PLUS, n, pieces, tail);
    case Minus(left, n) => ReadsArithStep(left, MINUS, n, pieces, tail);
  }

  lemma {:induction false} ReadsArithStep(left: Arith, op: byte, n: int, pieces: seq<Piece>, tail: seq<byte>)
    requires op == PLUS || op == MINUS
    requires Lays(pieces, ArithTokens(left) + [Mark(op), Numeral(n)]) && Punctuated(tail)
    ensures ArithPhrase(Laid(pieces) + tail)
         == ArithTail(if op == PLUS then Plus(left, n) else Minus(left, n), tail)
    decreases left, 1
  {
    hide Skip, Number, NumeralValue, ArithTokens, ArithPhrase;
    var k := |ArithTokens(left)|;
    Cut(pieces, ArithTokens(left), [Mark(op), Numeral(n)], tail);
    var last := pieces[k..];
    PunctuatedNext(last, tail);
    ReadsArith(left, pieces[..k], Laid(last) + tail);
    ReadMark(last, op, tail);
    Unroll(last[1..], tail);
    assert Laid(last[1..][1..]) + tail == tail;
    ReadNumber(Laid(last[1..]) + tail, last[1].gap, last[1].token, n, tail);
  }

  /** A whole arithmetic phrase, when no operator follows it. */
  lemma ReadsArithClosed(a: Arith, pieces: seq<Piece>, tail: seq<byte>)
    requires Lays(pieces, ArithTokens(a)) && Punctuated(tail)
    requires !NextIs(tail, PLUS) && !NextIs(tail, MINUS)
    ensures ArithPhrase(Laid(pieces) + tail) == Some((a, Skip(tail)))
  {
    ReadsArith(a, pieces, tail);
  }

  lemma {:induction false} ReadsCodes(acc: seq<int>, codes: seq<int>, pieces: seq<Piece>, tail: seq<byte>)
    requires codes != [] && Lays(pieces, CodeTokens(codes) + [Mark(RBRACKET)])
    ensures ArrayItems(acc, Laid(pieces) + tail) == Some((acc + codes, tail))
    ensures !NextIs(Laid(pieces) + tail, RBRACKET)
    decreases |codes|
  {
    hide Skip, Number, NumeralValue;
    var s := Laid(pieces) + tail;
    var after := pieces[1..];
    var tokens := CodeTokens(codes) + [Mark(RBRACKET)];
    assert Spells(pieces[0].token, tokens[0]) && Spells(pieces[1].token, tokens[1]);
    Unroll(pieces, tail);
    PunctuatedNext(after, tail);
    ReadNumber(s, pieces[0].gap, pieces[0].token, codes[0], Laid(after) + tail);
    if |codes| == 1 {
      ReadMark(after, RBRACKET, tail);
      assert Laid(after[1..]) + tail == tail;
      assert acc + [codes[0]] == acc + codes;
    } else {
      ReadMark(after, COMMA, tail);
      assert tokens[2..] == CodeTokens(codes[1..]) + [Mark(RBRACKET)];
      ReadsCodes(acc + [codes[0]], codes[1..], after[1..], tail);
      assert acc + [codes[0]] + codes[1..] == acc + codes;
    }
  }

  lemma ReadsSeparator(text: string, pieces: seq<Piece>, tail: seq<byte>)
    requires Lays(pieces, [Mark(OPEN), Quoted(text), Mark(CLOSE)])
    ensures SeparatorPhrase(Laid(pieces) + tail) == Some((text, tail))
  {
    hide Skip, StringToken, QuotedValue;
    ReadMark(pieces, OPEN, tail);
    Unroll(pieces[1..], tail);
    ReadString(Laid(pieces[1..]) + tail, pieces[1].gap, pieces[1].token, text, Laid(pieces[1..][1..]) + tail);
    ReadMark(pieces[1..][1..], CLOSE, tail);
    assert Laid(pieces[1..][1..][1..]) + tail == tail;
  }

  lemma ReadsSubstring(start: Arith, end: Option<Arith>, pieces: seq<Piece>, tail: seq<byte>)
    requires Lays(pieces, MethodTokens(Substring(start, end)))
    ensures SubstringPhrase(Laid(pieces) + tail) == Some((Substring(start, end), tail))
  {
    hide Skip, ArithPhrase, ArithTokens, SubstringEnd, EndTokens;
    var k := |ArithTokens(start)|;
    ReadMark(pieces, OPEN, tail);
    assert MethodTokens(Substring(start, end))[1..] == ArithTokens(start) + EndTokens(end);
    Cut(pieces[1..], ArithTokens(start), EndTokens(end), tail);
    var second := pieces[1..][k..];
    ReadsEnd(end, second, tail);
    ReadsArithClosed(start, pieces[1..][..k], Laid(second) + tail);
  }

  lemma ReadsEnd(end: Option<Arith>, pieces: seq<Piece>, tail: seq<byte>)
    requires Lays(pieces, EndTokens(end))
    ensures var s := Laid(pieces) + tail;
            && SubstringEnd(s) == SubstringEnd(Skip(s)) == Some((end, tail))
            && Punctuated(s) && !NextIs(s, PLUS) && !NextIs(s, MINUS)
  {
    hide Skip, ArithPhrase, ArithTokens;
    var close: seq<Token> := [Mark(CLOSE)];
    var s := Laid(pieces) + tail;
    PunctuatedNext(pieces, tail);
    SkipTwice(s);
    TokensSkip(s);
    if end.None? {
      ReadMark(pieces, CLOSE, tail);
      assert Laid(pieces[1..]) + tail == tail;
    } else {
      var k := |ArithTokens(end.value)|;
      ReadMark(pieces, COMMA, tail);
      assert EndTokens(end)[1..] == ArithTokens(end.value) + close;
      Cut(pieces[1..], ArithTokens(end.value), close, tail);
      var last := pieces[1..][k..];
      PunctuatedNext(last, tail);
      ReadMark(last, CLOSE, tail);
      ReadsArithClosed(end.value, pieces[1..][..k], Laid(last) + tail);
      TokensSkip(Laid(last) + tail);
      assert Laid(last[1..]) + tail == tail;
    }
  }

  lemma ReadsRepeat(count: Arith, pieces: seq<Piece>, tail: seq<byte>)
    requires Lays(pieces, MethodTokens(Repeat(count)))
    ensures MethodPhrase("repeat", Laid(pieces) + tail) == Some((Repeat(count), tail))
  {
    hide Skip, ArithPhrase, ArithTokens;
    var close: seq<Token> := [Mark(CLOSE)];
    var k := |ArithTokens(count)|;
    ReadMark(pieces, OPEN, tail);
    assert MethodTokens(Repeat(count))[1..] == ArithTokens(count) + close;
    Cut(pieces[1..], ArithTokens(count), close, tail);
    var last := pieces[1..][k..];
    PunctuatedNext(last, tail);
    ReadMark(last, CLOSE, tail);
    ReadsArithClosed(count, pieces[1..][..k], Laid(last) + tail);
    TokensSkip(Laid(last) + tail);
    assert Laid(last[1..]) + tail == tail;
  }

  lemma ReadsCodeCall(arrow: Arrow, offset: Option<int>, pieces: seq<Piece>, tail: seq<byte>)
    requires ValidIdent(arrow.param) && Lays(pieces, CodeCallTokens(arrow.param, offset))
    ensures CharCodeCall(arrow, Laid(pieces) + tail) == Some((Map(arrow, offset), tail))
  {
    hide Skip, Ident, Number, NumeralValue, Word, ValidIdent;
    var s := Laid(pieces) + tail;
    var p1 := pieces[1..];
    var p2 := p1[1..];
    var p3 := p2[1..];
    assert ValidIdent("fromCharCode") by { CalleesAreIdents(); }
    assert Spells(pieces[0].token, CodeCallTokens(arrow.param, offset)[0]);
    assert p1[0] == pieces[1] && p2[0] == pieces[2] && p3[0] == pieces[3];
    Unroll(pieces, tail);
    PunctuatedNext(p1, tail);
    ReadIdent(s, pieces[0].gap, "fromCharCode", Laid(p1) + tail);
    ReadMark(p1, OPEN, tail);
    Unroll(p2, tail);
    PunctuatedNext(p3, tail);
    ReadIdent(Laid(p2) + tail, p2[0].gap, arrow.param, Laid(p3) + tail);
    assert CodeCallTokens(arrow.param, offset)[3..] == OffsetTokens(offset);
    ReadsOffset(offset, p3, tail);
  }

  lemma ReadsOffset(offset: Option<int>, pieces: seq<Piece>, tail: seq<byte>)
    requires Lays(pieces, OffsetTokens(offset))
    ensures OffsetEnd(Laid(pieces) + tail) == Some((offset, tail))
  {
    hide Skip, Number, NumeralValue, Laid;
    NothingLaid();
    if offset.None? {
      ReadMark(pieces, CLOSE, tail);
      ReadMark(pieces[1..], CLOSE, tail);
      assert Laid(pieces[1..][1..]) + tail == tail;
    } else {
      var p1 := pieces[1..];
      var p2 := p1[1..];
      assert p1[0] == pieces[1] && p2[0] == pieces[2] && p2[1] == pieces[3];
      ReadMark(pieces, MINUS, tail);
      Unroll(p1, tail);
      PunctuatedNext(p2, tail);
      ReadNumber(Laid(p1) + tail, p1[0].gap, p1[0].token, offset.value, Laid(p2) + tail);
      ReadMark(p2, CLOSE, tail);
      ReadMark(p2[1..], CLOSE, tail);
      assert Laid(p2[1..][1..]) + tail == tail;
    }
  }

  lemma CalleesAreIdents()
    ensures ValidIdent("fromCharCode") && ValidIdent("String") && ValidIdent("atob")
    ensures Word("fromCharCode")[0] == 0x66 && Word("String")[0] == LETTER_S
  {
  }

  lemma ReadsBody(arrow: Arrow, offset: Option<int>, pieces: seq<Piece>, tail: seq<byte>)
    requires ValidIdent(arrow.param) && Lays(pieces, BodyTokens(arrow, offset))
    ensures MapBody(arrow.param, arrow.parenthesised, Laid(pieces) + tail) == Some((Map(arrow, offset), tail))
  {
    hide Skip, Ident, CharCodeCall, Word, ValidIdent;
    CalleesAreIdents();
    var s := Laid(pieces) + tail;
    var rest := Laid(pieces[1..]) + tail;
    Unroll(pieces, tail);
    assert Spells(pieces[0].token, BodyTokens(arrow, offset)[0]);
    assert Spells(pieces[1].token, BodyTokens(arrow, offset)[1]);
    PunctuatedNext(pieces[1..], tail);
    if arrow.qualified {
      ReadIdent(s, pieces[0].gap, "String", rest);
      ReadMark(pieces[1..], DOT, tail);
      assert BodyTokens(arrow, offset)[2..] == CodeCallTokens(arrow.param, offset);
      ReadsCodeCall(arrow, offset, pieces[1..][1..], tail);
    } else {
      assert BodyTokens(arrow, offset) == CodeCallTokens(arrow.param, offset);
      ReadIdent(s, pieces[0].gap, "fromCharCode", rest);
      ReadsCodeCall(arrow, offset, pieces, tail);
    }
  }

  lemma ReadsMap(arrow: Arrow, offset: Option<int>, pieces: seq<Piece>, tail: seq<byte>)
    requires WellFormedMethod(Map(arrow, offset)) && Lays(pieces, MethodTokens(Map(arrow, offset)))
    ensures MapPhrase(Laid(pieces) + tail) == Some((Map(arrow, offset), tail))
  {
    hide Skip, Ident, MapBody, Word, ValidIdent, BodyTokens;
    var body := BodyTokens(arrow, offset);
    var inner := pieces[1..];
    var k := |ArrowTokens(arrow)|;
    ReadMark(pieces, OPEN, tail);
    assert MethodTokens(Map(arrow, offset))[1..] == ArrowTokens(arrow) + body;
    Cut(inner, ArrowTokens(arrow), body, tail);
    var tail' := Laid(inner[k..]) + tail;
    ReadsBody(arrow, offset, inner[k..], tail);
    ReadsArrow(arrow, inner[..k], tail');
  }

  lemma ReadsArrow(arrow: Arrow, pieces: seq<Piece>, tail: seq<byte>)
    requires ValidIdent(arrow.param) && Lays(pieces, ArrowTokens(arrow))
    ensures var s := Laid(pieces) + tail;
            && NextIs(s, OPEN) == arrow.parenthesised
            && var s0 := if arrow.parenthesised then Skip(s)[1..] else s;
            && Ident(s0).Some? && Ident(s0).value.0 == arrow.param
            && var s1 := if arrow.parenthesised then Expect(Ident(s0).value.1, CLOSE) else Some(Ident(s0).value.1);
            && s1.Some?
            && var s2 := Expect(s1.value, EQUALS);
            && s2.Some? && Expect(s2.value, GREATER) == Some(tail)
  {
    hide Skip, Ident, Word;
    if arrow.parenthesised {
      ReadMark(pieces, OPEN, tail);
      assert Spells(pieces[1].token, ArrowTokens(arrow)[1]) && Spells(pieces[2].token, ArrowTokens(arrow)[2]);
      ReadsParam(arrow.param, pieces[1..], tail);
      ReadMark(pieces[1..][1..], CLOSE, tail);
      ReadsFatArrow(pieces[1..][1..][1..], tail);
    } else {
      assert Spells(pieces[0].token, ArrowTokens(arrow)[0]) && Spells(pieces[1].token, ArrowTokens(arrow)[1]);
      ReadsParam(arrow.param, pieces, tail);
      ReadsFatArrow(pieces[1..], tail);
    }
  }

  lemma ReadsParam(param: string, pieces: seq<Piece>, tail: seq<byte>)
    requires |pieces| >= 2 && ValidIdent(param) && Spells(pieces[0].token, Name(param))
    requires Spells(pieces[1].token, Mark(CLOSE)) || Spells(pieces[1].token, Mark(EQUALS))
    requires AllSpace(pieces[0].gap) && AllSpace(pieces[1].gap)
    ensures Ident(Laid(pieces) + tail) == Some((param, Laid(pieces[1..]) + tail))
    ensures !NextIs(Laid(pieces) + tail, OPEN)
  {
    Unroll(pieces, tail);
    PunctuatedNext(pieces[1..], tail);
    ReadIdent(Laid(pieces) + tail, pieces[0].gap, param, Laid(pieces[1..]) + tail);
  }

  lemma ReadsFatArrow(pieces: seq<Piece>, tail: seq<byte>)
    requires Lays(pieces, [Mark(EQUALS), Mark(GREATER)])
    ensures var s := Expect(Laid(pieces) + tail, EQUALS);
            s.Some? && Expect(s.value, GREATER) == Some(tail)
  {
    hide Skip;
    ReadMark(pieces, EQUALS, tail);
    ReadMark(pieces[1..], GREATER, tail);
    assert Laid(pieces[1..][1..]) + tail == tail;
  }

  // ----- Reading expressions -----

  lemma ReadsArray(codes: seq<int>, pieces: seq<Piece>, tail: seq<byte>)
    requires Lays(pieces, Tokens(ArrayLit(codes)))
    ensures PrimaryPhrase(Laid(pieces) + tail) == Some((ArrayLit(codes), tail))
  {
    hide Skip, StringToken, ArrayItems, QuotedValue, Laid;
    NothingLaid();
    ReadMark(pieces, LBRACKET, tail);
    if codes == [] {
      ReadMark(pieces[1..], RBRACKET, tail);
      assert Laid(pieces[1..][1..]) + tail == tail;
    } else {
      assert Tokens(ArrayLit(codes))[1..] == CodeTokens(codes) + [Mark(RBRACKET)];
      ReadsCodes([], codes, pieces[1..], tail);
      assert [] + codes == codes;
    }
  }

  lemma ReadsAtob(payload: string, pieces: seq<Piece>, tail: seq<byte>)
    requires Lays(pieces, Tokens(Atob(payload)))
    ensures PrimaryPhrase(Laid(pieces) + tail) == Some((Atob(payload), tail))
  {
    hide Skip, Ident, StringToken, ArrayPhrase, QuotedValue, Word, Laid;
    NothingLaid();
    Unroll(pieces, tail);
    var p1 := pieces[1..];
    CalleesAreIdents();
    assert Spells(pieces[0].token, Tokens(Atob(payload))[0]);
    assert p1[0] == pieces[1] && p1[1] == pieces[2] && p1[2] == pieces[3];
    PunctuatedNext(p1, tail);
    ReadIdent(Laid(pieces) + tail, pieces[0].gap, "atob", Laid(p1) + tail);
    ReadMark(p1, OPEN, tail);
    Unroll(p1[1..], tail);
    ReadString(Laid(p1[1..]) + tail, p1[1].gap, p1[1].token, payload, Laid(p1[1..][1..]) + tail);
    ReadMark(p1[1..][1..], CLOSE, tail);
    assert Laid(p1[1..][1..][1..]) + tail == tail;
  }

  lemma ReadsPrimary(e: Expr, pieces: seq<Piece>, tail: seq<byte>)
    requires !e.Call? && Lays(pieces, Tokens(e))
    ensures PrimaryPhrase(Laid(pieces) + tail) == Some((e, tail))
  {
    match e
    case StringLit(text) =>
      hide Skip, StringToken, QuotedValue;
      Unroll(pieces, tail);
      assert Laid(pieces[1..]) + tail == tail;
      ReadString(Laid(pieces) + tail, pieces[0].gap, pieces[0].token, text, tail);
    case ArrayLit(codes) => ReadsArray(codes, pieces, tail);
    case Atob(payload) => ReadsAtob(payload, pieces, tail);
  }

  /** Whatever follows a laid-out expression is read as calls on that expression. */
  lemma {:induction false} ReadsExpr(e: Expr, pieces: seq<Piece>, tail: seq<byte>)
    requires WellFormed(e) && Lays(pieces, Tokens(e))
    ensures ExprPhrase(Laid(pieces) + tail) == CallChain(e, tail)
    decreases e, 1
  {
    hide Skip, Ident, PrimaryPhrase, MethodPhrase, Word, MethodTokens;
    if e.Call? {
      var k := |Tokens(e.receiver)|;
      var name := MethodName(e.operation);
      var call := [Mark(DOT), Name(name)] + MethodTokens(e.operation);
      Cut(pieces, Tokens(e.receiver), call, tail);
      var p := pieces[k..];
      ReadsExpr(e.receiver, pieces[..k], Laid(p) + tail);
      ReadMark(p, DOT, tail);
      var p1 := p[1..];
      assert Spells(p1[0].token, call[1]) && Spells(p1[1].token, call[2]);
      Unroll(p1, tail);
      PunctuatedNext(p1[1..], tail);
      ReadIdent(Laid(p1) + tail, p1[0].gap, name, Laid(p1[1..]) + tail);
      assert call[2..] == MethodTokens(e.operation);
      ReadsMethod(e.operation, p1[1..], tail);
    } else {
      ReadsPrimary(e, pieces, tail);
    }
  }

  lemma {:induction false} ReadsMethod(m: Method, pieces: seq<Piece>, tail: seq<byte>)
    requires WellFormedMethod(m) && Lays(pieces, MethodTokens(m))
    ensures MethodPhrase(MethodName(m), Laid(pieces) + tail) == Some((m, tail))
    decreases m, 0
  {
    hide Skip, SubstringPhrase, SeparatorPhrase, ConcatPhrase, MapPhrase, Lays, Laid;
    match m
    case Substring(start, end) => ReadsSubstring(start, end, pieces, tail);
    case Repeat(count) => ReadsRepeat(count, pieces, tail);
    case Split(separator) => ReadsSeparator(separator, pieces, tail);
    case Join(separator) => ReadsSeparator(separator, pieces, tail);
    case Reverse => ReadsReverse(pieces, tail);
    case Concat(args) => ReadsConcat(args, pieces, tail);
    case Map(arrow, offset) => ReadsMap(arrow, offset, pieces, tail);
  }

  lemma ReadsReverse(pieces: seq<Piece>, tail: seq<byte>)
    requires Lays(pieces, MethodTokens(Reverse))
    ensures MethodPhrase("reverse", Laid(pieces) + tail) == Some((Reverse, tail))
  {
    hide Skip, Laid;
    NothingLaid();
    ReadMark(pieces, OPEN, tail);
    ReadMark(pieces[1..], CLOSE, tail);
    assert pieces[1..][1..] == [] && [] + tail == tail;
  }

  lemma {:induction false} ReadsConcat(args: seq<Expr>, pieces: seq<Piece>, tail: seq<byte>)
    requires (forall a | a in args :: WellFormed(a)) && Lays(pieces, [Mark(OPEN)] + ArgTokens(args))
    ensures ConcatPhrase(Laid(pieces) + tail) == Some((args, tail))
    decreases args, 3
  {
    hide Skip, ConcatArgs, Laid;
    NothingLaid();
    ReadMark(pieces, OPEN, tail);
    assert ([Mark(OPEN)] + ArgTokens(args))[1..] == ArgTokens(args);
    if args == [] {
      ReadMark(pieces[1..], CLOSE, tail);
      assert pieces[1..][1..] == [] && [] + tail == tail;
    } else {
      ReadsArgs([], args, pieces[1..], tail);
      NoCloseBeforeArgument(args, pieces[1..], tail);
      assert [] + args == args;
    }
  }

  lemma {:induction false} ReadsArgs(acc: seq<Expr>, args: seq<Expr>, pieces: seq<Piece>, tail: seq<byte>)
    requires args != [] && (forall a | a in args :: WellFormed(a)) && Lays(pieces, ArgTokens(args))
    ensures ConcatArgs(acc, Laid(pieces) + tail) == Some((acc + args, tail))
    decreases args, 2
  {
    hide Skip, ExprPhrase, Tokens, Laid, Spells, MethodPhrase, Ident;
    NothingLaid();
    var k := |Tokens(args[0])|;
    var behind := if |args| == 1 then [Mark(CLOSE)] else [Mark(COMMA)] + ArgTokens(args[1..]);
    Cut(pieces, Tokens(args[0]), behind, tail);
    var p := pieces[k..];
    ReadsExpr(args[0], pieces[..k], Laid(p) + tail);
    ReadMark(p, behind[0].b, tail);
    SkipTwice(Laid(p) + tail);
    if |args| == 1 {
      assert Laid(p[1..]) + tail == tail;
      assert acc + [args[0]] == acc + args;
    } else {
      assert behind[1..] == ArgTokens(args[1..]);
      ReadsArgs(acc + [args[0]], args[1..], p[1..], tail);
      assert acc + [args[0]] + args[1..] == acc + args;
    }
  }

  /** An expression starts with a quote, a bracket or the `a` of `atob`. */
  lemma {:induction false} FirstTokenByte(e: Expr, bs: seq<byte>)
    requires WellFormed(e) && Spells(bs, Tokens(e)[0])
    ensures bs != [] && (bs[0] == QUOTE || bs[0] == LBRACKET || bs[0] == 0x61)
  {
    if e.Call? {
      FirstTokenByte(e.receiver, bs);
    }
  }

  lemma NoCloseBeforeArgument(args: seq<Expr>, pieces: seq<Piece>, tail: seq<byte>)
    requires args != [] && (forall a | a in args :: WellFormed(a)) && Lays(pieces, ArgTokens(args))
    ensures !NextIs(Laid(pieces) + tail, CLOSE)
  {
    assert ArgTokens(args)[0] == Tokens(args[0])[0];
    FirstTokenByte(args[0], pieces[0].token);
    Unroll(pieces, tail);
    SkipToToken(pieces[0].gap, pieces[0].token, Laid(pieces[1..]) + tail);
  }

  // ----- Layouts parse back -----

  /** Every layout of a tree parses to that tree. */
  lemma ParsesBack(e: Expr, pieces: seq<Piece>, last: seq<byte>)
    requires WellFormed(e) && Lays(pieces, Tokens(e)) && AllSpace(last)
    ensures ParseTree(Laid(pieces) + last) == Some(e)
  {
    hide ExprPhrase;
    ReadsExpr(e, pieces, last);
    SkipGap(last, []);
    assert last + [] == last;
    SkipTwice(last);
  }

  /** The notation is unambiguous: two trees with a layout in common are the same tree. */
  lemma Unambiguous(e: Expr, pieces: seq<Piece>, last: seq<byte>, e': Expr, pieces': seq<Piece>, last': seq<byte>)
    requires WellFormed(e) && Lays(pieces, Tokens(e)) && AllSpace(last)
    requires WellFormed(e') && Lays(pieces', Tokens(e')) && AllSpace(last')
    requires Laid(pieces) + last == Laid(pieces') + last'
    ensures e == e'
  {
    ParsesBack(e, pieces, last);
    ParsesBack(e', pieces', last');
  }
}
