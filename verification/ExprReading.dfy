/** The grammar of the ProxyNova expressions accepts exactly the layouts of syntax trees. */
module ExprReading {
  import opened Wrappers
  import opened ExprSyntax
  import opened ExprParser
  import opened ExprLayout
  import ExprMeaning
  import Utf8

  /** `s` is a layout of `tokens`, white space, and `rest`. */
  ghost predicate Took(s: seq<byte>, tokens: seq<Token>, rest: seq<byte>) {
    exists pieces: seq<Piece>, gap: seq<byte> ::
      Lays(pieces, tokens) && AllSpace(gap) && s == Laid(pieces) + gap + rest
  }

  /** `s` is a layout of `e`, with white space behind it. */
  ghost predicate LayoutOf(e: Expr, s: seq<byte>)
    requires WellFormed(e)
  {
    Took(s, Tokens(e), [])
  }

  // ----- Composition -----

  lemma {:induction false} SkipTakes(s: seq<byte>) returns (gap: seq<byte>)
    ensures AllSpace(gap) && s == gap + Skip(s)
  {
    if s != [] && IsSpace(s[0]) {
      var more := SkipTakes(s[1..]);
      gap := [s[0]] + more;
      assert s == [s[0]] + s[1..];
      Assoc([s[0]], more, Skip(s[1..]));
    } else {
      gap := [];
      assert [] + s == s;
    }
  }

  lemma TookBy(s: seq<byte>, pieces: seq<Piece>, gap: seq<byte>, tokens: seq<Token>, rest: seq<byte>)
    requires Lays(pieces, tokens) && AllSpace(gap) && s == Laid(pieces) + gap + rest
    ensures Took(s, tokens, rest)
  {
  }

  lemma TookNothing(s: seq<byte>)
    ensures Took(s, [], s) && Took(s, [], Skip(s))
  {
    hide Skip, Took;
    var gap := SkipTakes(s);
    var none: seq<Piece> := [];
    assert Laid(none) == [];
    assert [] + gap == gap && [] + [] + s == s;
    TookBy(s, none, gap, [], Skip(s));
    TookBy(s, none, [], [], s);
  }

  lemma TookToken(s: seq<byte>, gap: seq<byte>, bs: seq<byte>, token: Token, rest: seq<byte>)
    requires AllSpace(gap) && Spells(bs, token) && s == gap + bs + rest
    ensures Took(s, [token], rest)
  {
    hide Spells, Took;
    var pieces := [Piece(gap, bs)];
    assert pieces[1..] == [] && Laid(pieces[1..]) == [];
    assert Laid(pieces) == gap + bs;
    assert gap + bs + [] == gap + bs;
    TookBy(s, pieces, [], [token], rest);
  }

  lemma TookThen(s: seq<byte>, a: seq<Token>, middle: seq<byte>, b: seq<Token>, rest: seq<byte>)
    requires Took(s, a, middle) && Took(middle, b, rest)
    ensures Took(s, a + b, rest)
  {
    hide Lays, Laid, AllSpace;
    var p: seq<Piece>, g: seq<byte> :| Lays(p, a) && AllSpace(g) && s == Laid(p) + g + middle;
    var q: seq<Piece>, h: seq<byte> :| Lays(q, b) && AllSpace(h) && middle == Laid(q) + h + rest;
    hide Took;
    Joined(p, g, q, h, a, b, rest);
  }

  lemma Joined(p: seq<Piece>, g: seq<byte>, q: seq<Piece>, h: seq<byte>, a: seq<Token>, b: seq<Token>, rest: seq<byte>)
    requires Lays(p, a) && AllSpace(g) && Lays(q, b) && AllSpace(h)
    ensures Took(Laid(p) + g + (Laid(q) + h + rest), a + b, rest)
  {
    hide Took, Laid, Spells;
    var s := Laid(p) + g + (Laid(q) + h + rest);
    if q == [] {
      NothingLaid();
      assert a + b == a && [] + h == h;
      Assoc(Laid(p) + g, h, rest);
      Assoc(Laid(p), g, h);
      TookBy(s, p, g + h, a + b, rest);
    } else {
      var q' := q[0 := q[0].(gap := g + q[0].gap)];
      LaidConcat(p, q');
      GapInFront(q, g);
      Assoc(Laid(p), g, Laid(q) + h + rest);
      Assoc(g, Laid(q) + h, rest);
      Assoc(g, Laid(q), h);
      Assoc(Laid(p), Laid(q') + h, rest);
      Assoc(Laid(p), Laid(q'), h);
      LaysBoth(p, q', a, b);
      TookBy(s, p + q', h, a + b, rest);
    }
  }

  lemma LaysBoth(p: seq<Piece>, q: seq<Piece>, a: seq<Token>, b: seq<Token>)
    requires Lays(p, a) && Lays(q, b)
    ensures Lays(p + q, a + b)
  {
    hide Spells, AllSpace;
  }

  lemma GapInFront(q: seq<Piece>, gap: seq<byte>)
    requires q != []
    ensures Laid(q[0 := q[0].(gap := gap + q[0].gap)]) == gap + Laid(q)
  {
    var q' := q[0 := q[0].(gap := gap + q[0].gap)];
    assert q'[1..] == q[1..];
    Assoc(gap, q[0].gap, q[0].token);
    Assoc(gap, q[0].gap + q[0].token, Laid(q[1..]));
  }

  lemma TookSkip(s: seq<byte>, tokens: seq<Token>, rest: seq<byte>)
    requires Took(s, tokens, rest)
    ensures Took(s, tokens, Skip(rest))
  {
    hide Took;
    TookNothing(rest);
    TookThen(s, tokens, rest, [], Skip(rest));
    assert tokens + [] == tokens;
  }

  // ----- One token -----

  lemma NextTakes(s: seq<byte>, b: byte)
    requires NextIs(s, b)
    ensures Took(s, [Mark(b)], Skip(s)[1..])
  {
    hide Skip, Took;
    var gap := SkipTakes(s);
    var t := Skip(s);
    assert t == [b] + t[1..];
    assert s == gap + [b] + t[1..];
    TookToken(s, gap, [b], Mark(b), t[1..]);
  }

  lemma {:induction false} IdentBytes(s: seq<byte>)
    ensures forall i :: 0 <= i < IdentLength(s) ==> IsIdentByte(s[i])
  {
    if s != [] && IsIdentByte(s[0]) {
      IdentBytes(s[1..]);
    }
  }

  lemma IdentTakes(s: seq<byte>)
    requires Ident(s).Some?
    ensures ValidIdent(Ident(s).value.0)
    ensures Took(s, [Name(Ident(s).value.0)], Ident(s).value.1)
  {
    hide Skip, Took;
    var gap := SkipTakes(s);
    var t := Skip(s);
    var n := IdentLength(t);
    var word, name := t[..n], TextOf(t[..n]);
    IdentBytes(t);
    assert n > 0;
    assert forall i :: 0 <= i < n ==> name[i] as int == t[i] && IsIdentByte(t[i]);
    assert Word(name) == word;
    assert t == word + t[n..];
    Assoc(gap, word, t[n..]);
    TookToken(s, gap, word, Name(name), t[n..]);
  }

  lemma NumberTakes(s: seq<byte>)
    requires Number(s).Some?
    ensures Took(s, [Numeral(Number(s).value.0)], Number(s).value.1)
  {
    hide Skip, Took, DecimalValue;
    var gap := SkipTakes(s);
    var t := Skip(s);
    var u := if HasSign(t) then t[1..] else t;
    var n := DigitCount(u);
    var k := if HasSign(t) then n + 1 else n;
    var numeral := t[..k];
    assert t == numeral + t[k..] && t[k..] == u[n..];
    assert (if HasSign(numeral) then numeral[1..] else numeral) == u[..n];
    Assoc(gap, numeral, t[k..]);
    TookToken(s, gap, numeral, Numeral(Number(s).value.0), t[k..]);
  }

  lemma {:induction false} StringBodyTakes(s: seq<byte>, acc: seq<byte>) returns (raw: seq<byte>)
    requires StringBody(s, acc).Some?
    ensures Unescaped(raw).Some? && StringBody(s, acc).value.0 == acc + Unescaped(raw).value
    ensures s == raw + [QUOTE] + StringBody(s, acc).value.1
    decreases |s|
  {
    hide Unescape;
    if s[0] == QUOTE {
      raw := [];
      assert acc + [] == acc;
      assert s == [] + [QUOTE] + s[1..];
    } else {
      var k := if s[0] == BACKSLASH then 2 else 1;
      var b := if s[0] == BACKSLASH then Unescape(s[1]).value else s[0];
      var more := StringBodyTakes(s[k..], acc + [b]);
      raw := s[..k] + more;
      assert raw[k..] == more;
      assert acc + [b] + Unescaped(more).value == acc + ([b] + Unescaped(more).value);
      assert s == s[..k] + s[k..];
      assert s == raw + [QUOTE] + StringBody(s, acc).value.1;
    }
  }

  lemma StringTakes(s: seq<byte>)
    requires StringToken(s).Some?
    ensures Took(s, [Quoted(StringToken(s).value.0)], StringToken(s).value.1)
  {
    hide Skip, Took, Unescaped, StringBody, Utf8.Decode;
    var gap := SkipTakes(s);
    var t := Skip(s);
    var raw := StringBodyTakes(t[1..], []);
    var (text, rest) := StringToken(s).value;
    var literal := [QUOTE] + raw + [QUOTE];
    assert [] + Unescaped(raw).value == Unescaped(raw).value;
    assert literal[1..|literal| - 1] == raw;
    assert t == [QUOTE] + t[1..];
    assert t == literal + rest;
    Assoc(gap, literal, rest);
    TookToken(s, gap, literal, Quoted(text), rest);
  }

  lemma ExpectTakes(s: seq<byte>, b: byte)
    requires Expect(s, b).Some?
    ensures Took(s, [Mark(b)], Expect(s, b).value)
  {
    NextTakes(s, b);
  }

  // ----- Phrases -----

  lemma {:induction false} ArithTailTakes(acc: Arith, s: seq<byte>) returns (more: seq<Token>)
    requires ArithTail(acc, s).Some?
    ensures ArithTokens(ArithTail(acc, s).value.0) == ArithTokens(acc) + more
    ensures Took(s, more, ArithTail(acc, s).value.1)
    decreases |s|
  {
    hide Skip, Took, Number;
    if NextIs(s, PLUS) || NextIs(s, MINUS) {
      var op := if NextIs(s, PLUS) then PLUS else MINUS;
      var s1 := Skip(s)[1..];
      var (n, rest) := Number(s1).value;
      var acc' := if op == PLUS then Plus(acc, n) else Minus(acc, n);
      var more' := ArithTailTakes(acc', rest);
      NextTakes(s, op);
      NumberTakes(s1);
      TookThen(s, [Mark(op)], s1, [Numeral(n)], rest);
      TookThen(s, [Mark(op)] + [Numeral(n)], rest, more', ArithTail(acc, s).value.1);
      more := [Mark(op)] + [Numeral(n)] + more';
      assert [Mark(op)] + [Numeral(n)] == [Mark(op), Numeral(n)];
      Assoc(ArithTokens(acc), [Mark(op), Numeral(n)], more');
    } else {
      more := [];
      TookNothing(s);
      assert ArithTokens(acc) + [] == ArithTokens(acc);
    }
  }

  lemma ArithTakes(s: seq<byte>)
    requires ArithPhrase(s).Some?
    ensures Took(s, ArithTokens(ArithPhrase(s).value.0), ArithPhrase(s).value.1)
  {
    hide Took, Number, ArithTail;
    var (n, rest) := Number(s).value;
    NumberTakes(s);
    var more := ArithTailTakes(Num(n), rest);
    TookThen(s, [Numeral(n)], rest, more, ArithPhrase(s).value.1);
  }

  lemma {:induction false} ArrayItemsTake(acc: seq<int>, s: seq<byte>) returns (more: seq<int>)
    requires ArrayItems(acc, s).Some?
    ensures more != [] && ArrayItems(acc, s).value.0 == acc + more
    ensures Took(s, CodeTokens(more) + [Mark(RBRACKET)], ArrayItems(acc, s).value.1)
    decreases |s|
  {
    hide Skip, Took, Number;
    var (n, s1) := Number(s).value;
    var rest := ArrayItems(acc, s).value.1;
    NumberTakes(s);
    var s2 := Skip(s1)[1..];
    if NextIs(s1, COMMA) {
      var more' := ArrayItemsTake(acc + [n], s2);
      more := [n] + more';
      NextTakes(s1, COMMA);
      TookThen(s, [Numeral(n)], s1, [Mark(COMMA)], s2);
      TookThen(s, [Numeral(n)] + [Mark(COMMA)], s2, CodeTokens(more') + [Mark(RBRACKET)], rest);
      assert more[1..] == more';
      assert CodeTokens(more) + [Mark(RBRACKET)]
          == [Numeral(n)] + [Mark(COMMA)] + (CodeTokens(more') + [Mark(RBRACKET)]);
      Assoc(acc, [n], more');
    } else {
      more := [n];
      NextTakes(s1, RBRACKET);
      TookThen(s, [Numeral(n)], s1, [Mark(RBRACKET)], rest);
    }
  }

  lemma ArrayTakes(s: seq<byte>)
    requires ArrayPhrase(s).Some?
    ensures Took(s, Tokens(ArrayLit(ArrayPhrase(s).value.0)), ArrayPhrase(s).value.1)
  {
    hide Skip, Took, ArrayItems;
    var s1 := Expect(s, LBRACKET).value;
    var (codes, rest) := ArrayPhrase(s).value;
    ExpectTakes(s, LBRACKET);
    if NextIs(s1, RBRACKET) {
      NextTakes(s1, RBRACKET);
      TookThen(s, [Mark(LBRACKET)], s1, [Mark(RBRACKET)], rest);
      assert Tokens(ArrayLit([])) == [Mark(LBRACKET)] + [Mark(RBRACKET)];
    } else {
      var more := ArrayItemsTake([], s1);
      assert [] + more == more;
      TookThen(s, [Mark(LBRACKET)], s1, CodeTokens(codes) + [Mark(RBRACKET)], rest);
      Assoc([Mark(LBRACKET)], CodeTokens(codes), [Mark(RBRACKET)]);
    }
  }

  lemma PrimaryTakes(s: seq<byte>)
    requires PrimaryPhrase(s).Some?
    ensures WellFormed(PrimaryPhrase(s).value.0) && !PrimaryPhrase(s).value.0.Call?
    ensures Took(s, Tokens(PrimaryPhrase(s).value.0), PrimaryPhrase(s).value.1)
  {
    hide Skip, Took, StringToken, ArrayPhrase, Ident, Expect, CodeTokens;
    if NextIs(s, QUOTE) {
      StringTakes(s);
    } else if NextIs(s, LBRACKET) {
      ArrayTakes(s);
    } else {
      var s1 := Ident(s).value.1;
      var s2 := Expect(s1, OPEN).value;
      var (payload, s3) := StringToken(s2).value;
      var rest := Expect(s3, CLOSE).value;
      IdentTakes(s);
      ExpectTakes(s1, OPEN);
      StringTakes(s2);
      ExpectTakes(s3, CLOSE);
      TookThen(s, [Name("atob")], s1, [Mark(OPEN)], s2);
      TookThen(s, [Name("atob")] + [Mark(OPEN)], s2, [Quoted(payload)], s3);
      TookThen(s, [Name("atob")] + [Mark(OPEN)] + [Quoted(payload)], s3, [Mark(CLOSE)], rest);
      assert Tokens(Atob(payload)) == [Name("atob")] + [Mark(OPEN)] + [Quoted(payload)] + [Mark(CLOSE)];
    }
  }

  lemma SeparatorTakes(s: seq<byte>)
    requires SeparatorPhrase(s).Some?
    ensures Took(s, [Mark(OPEN), Quoted(SeparatorPhrase(s).value.0), Mark(CLOSE)], SeparatorPhrase(s).value.1)
  {
    hide Took, StringToken, Expect;
    var s1 := Expect(s, OPEN).value;
    var (text, s2) := StringToken(s1).value;
    ExpectTakes(s, OPEN);
    StringTakes(s1);
    ExpectTakes(s2, CLOSE);
    TookThen(s, [Mark(OPEN)], s1, [Quoted(text)], s2);
    TookThen(s, [Mark(OPEN)] + [Quoted(text)], s2, [Mark(CLOSE)], Expect(s2, CLOSE).value);
    assert [Mark(OPEN)] + [Quoted(text)] + [Mark(CLOSE)] == [Mark(OPEN), Quoted(text), Mark(CLOSE)];
  }

  lemma SubstringEndTakes(s: seq<byte>)
    requires SubstringEnd(s).Some?
    ensures Took(s, EndTokens(SubstringEnd(s).value.0), SubstringEnd(s).value.1)
  {
    hide Took, Skip, ArithPhrase, ArithTokens, Expect;
    var rest := SubstringEnd(s).value.1;
    if NextIs(s, COMMA) {
      var s1 := Skip(s)[1..];
      var (end, s2) := ArithPhrase(s1).value;
      NextTakes(s, COMMA);
      ArithTakes(s1);
      ExpectTakes(s2, CLOSE);
      TookThen(s, [Mark(COMMA)], s1, ArithTokens(end), s2);
      TookThen(s, [Mark(COMMA)] + ArithTokens(end), s2, [Mark(CLOSE)], rest);
    } else {
      ExpectTakes(s, CLOSE);
      assert [] + [Mark(CLOSE)] == [Mark(CLOSE)];
    }
  }

  lemma SubstringTakes(s: seq<byte>)
    requires SubstringPhrase(s).Some?
    ensures Took(s, MethodTokens(SubstringPhrase(s).value.0), SubstringPhrase(s).value.1)
  {
    hide Took, ArithPhrase, ArithTokens, SubstringEnd, EndTokens, Expect;
    var s1 := Expect(s, OPEN).value;
    var (start, s2) := ArithPhrase(s1).value;
    var (end, rest) := SubstringEnd(s2).value;
    ExpectTakes(s, OPEN);
    ArithTakes(s1);
    SubstringEndTakes(s2);
    TookThen(s, [Mark(OPEN)], s1, ArithTokens(start), s2);
    TookThen(s, [Mark(OPEN)] + ArithTokens(start), s2, EndTokens(end), rest);
    Assoc([Mark(OPEN)], ArithTokens(start), EndTokens(end));
  }

  lemma RepeatTakes(s: seq<byte>)
    requires MethodPhrase("repeat", s).Some?
    ensures MethodPhrase("repeat", s).value.0.Repeat?
    ensures Took(s, MethodTokens(MethodPhrase("repeat", s).value.0), MethodPhrase("repeat", s).value.1)
  {
    hide Took, ArithPhrase, ArithTokens, Expect;
    var s1 := Expect(s, OPEN).value;
    var (count, s2) := ArithPhrase(s1).value;
    ExpectTakes(s, OPEN);
    ArithTakes(s1);
    ExpectTakes(s2, CLOSE);
    TookThen(s1, ArithTokens(count), s2, [Mark(CLOSE)], Expect(s2, CLOSE).value);
    TookThen(s, [Mark(OPEN)], s1, ArithTokens(count) + [Mark(CLOSE)], Expect(s2, CLOSE).value);
  }

  lemma OffsetEndTakes(s: seq<byte>)
    requires OffsetEnd(s).Some?
    ensures var (offset, rest) := OffsetEnd(s).value;
            Took(s, OffsetTokens(offset), rest)
  {
    hide Took, Skip, Number, Expect;
    var rest := OffsetEnd(s).value.1;
    if NextIs(s, MINUS) {
      var s1 := Skip(s)[1..];
      var (n, s2) := Number(s1).value;
      NextTakes(s, MINUS);
      NumberTakes(s1);
      TookThen(s, [Mark(MINUS)], s1, [Numeral(n)], s2);
      ClosesTake(s2);
      TookThen(s, [Mark(MINUS)] + [Numeral(n)], s2, [Mark(CLOSE), Mark(CLOSE)], rest);
      assert [Mark(MINUS)] + [Numeral(n)] == [Mark(MINUS), Numeral(n)];
    } else {
      ClosesTake(s);
      assert [] + [Mark(CLOSE), Mark(CLOSE)] == [Mark(CLOSE), Mark(CLOSE)];
    }
  }

  lemma ClosesTake(s: seq<byte>)
    requires Expect(s, CLOSE).Some? && Expect(Expect(s, CLOSE).value, CLOSE).Some?
    ensures Took(s, [Mark(CLOSE), Mark(CLOSE)], Expect(Expect(s, CLOSE).value, CLOSE).value)
  {
    hide Took, Expect;
    var s1 := Expect(s, CLOSE).value;
    ExpectTakes(s, CLOSE);
    ExpectTakes(s1, CLOSE);
    TookThen(s, [Mark(CLOSE)], s1, [Mark(CLOSE)], Expect(s1, CLOSE).value);
    assert [Mark(CLOSE)] + [Mark(CLOSE)] == [Mark(CLOSE), Mark(CLOSE)];
  }

  lemma CodeCallTakes(arrow: Arrow, s: seq<byte>)
    requires ValidIdent(arrow.param) && CharCodeCall(arrow, s).Some?
    ensures CharCodeCall(arrow, s).value.0.arrow == arrow
    ensures Took(s, CodeCallTokens(arrow.param, CharCodeCall(arrow, s).value.0.offset), CharCodeCall(arrow, s).value.1)
  {
    hide Took, Ident, Expect, OffsetEnd, ValidIdent;
    var s1 := Ident(s).value.1;
    var s2 := Expect(s1, OPEN).value;
    var s3 := Ident(s2).value.1;
    var (offset, rest) := OffsetEnd(s3).value;
    var tail := (if offset.Some? then [Mark(MINUS), Numeral(offset.value)] else []) + [Mark(CLOSE), Mark(CLOSE)];
    IdentTakes(s);
    ExpectTakes(s1, OPEN);
    IdentTakes(s2);
    OffsetEndTakes(s3);
    TookThen(s, [Name("fromCharCode")], s1, [Mark(OPEN)], s2);
    TookThen(s, [Name("fromCharCode")] + [Mark(OPEN)], s2, [Name(arrow.param)], s3);
    TookThen(s, [Name("fromCharCode")] + [Mark(OPEN)] + [Name(arrow.param)], s3, tail, rest);
    assert CodeCallTokens(arrow.param, offset) == [Name("fromCharCode")] + [Mark(OPEN)] + [Name(arrow.param)] + tail;
  }

  lemma BodyTakes(param: string, parenthesised: bool, s: seq<byte>)
    requires ValidIdent(param) && MapBody(param, parenthesised, s).Some?
    ensures var (m, rest) := MapBody(param, parenthesised, s).value;
            && m.arrow.param == param && m.arrow.parenthesised == parenthesised
            && Took(s, BodyTokens(m.arrow, m.offset), rest)
  {
    hide Took, Skip, Ident, Expect, CharCodeCall, ValidIdent, CodeCallTokens;
    var (m, rest) := MapBody(param, parenthesised, s).value;
    if NextIs(s, LETTER_S) {
      var s1 := Ident(s).value.1;
      var s2 := Expect(s1, DOT).value;
      IdentTakes(s);
      ExpectTakes(s1, DOT);
      CodeCallTakes(Arrow(param, parenthesised, true), s2);
      TookThen(s, [Name("String")], s1, [Mark(DOT)], s2);
      TookThen(s, [Name("String")] + [Mark(DOT)], s2, CodeCallTokens(param, m.offset), rest);
      assert [Name("String")] + [Mark(DOT)] == [Name("String"), Mark(DOT)];
    } else {
      CodeCallTakes(Arrow(param, parenthesised, false), s);
      assert [] + CodeCallTokens(param, m.offset) == CodeCallTokens(param, m.offset);
    }
  }

  lemma FatArrowTakes(s: seq<byte>)
    requires Expect(s, EQUALS).Some? && Expect(Expect(s, EQUALS).value, GREATER).Some?
    ensures Took(s, [Mark(EQUALS), Mark(GREATER)], Expect(Expect(s, EQUALS).value, GREATER).value)
  {
    hide Took, Expect;
    var s1 := Expect(s, EQUALS).value;
    ExpectTakes(s, EQUALS);
    ExpectTakes(s1, GREATER);
    TookThen(s, [Mark(EQUALS)], s1, [Mark(GREATER)], Expect(s1, GREATER).value);
    assert [Mark(EQUALS)] + [Mark(GREATER)] == [Mark(EQUALS), Mark(GREATER)];
  }

  lemma MapTakes(s: seq<byte>)
    requires MapPhrase(s).Some?
    ensures WellFormedMethod(MapPhrase(s).value.0)
    ensures Took(s, MethodTokens(MapPhrase(s).value.0), MapPhrase(s).value.1)
  {
    hide Took, Skip, Ident, Expect, MapBody, ValidIdent, BodyTokens;
    var (m, rest) := MapPhrase(s).value;
    var s1 := Expect(s, OPEN).value;
    ExpectTakes(s, OPEN);
    var parenthesised := NextIs(s1, OPEN);
    var s2 := if parenthesised then Skip(s1)[1..] else s1;
    var (param, s3) := Ident(s2).value;
    var s4 := if parenthesised then Expect(s3, CLOSE).value else s3;
    var s5 := Expect(Expect(s4, EQUALS).value, GREATER).value;
    IdentTakes(s2);
    FatArrowTakes(s4);
    BodyTakes(param, parenthesised, s5);
    var head := if parenthesised then [Mark(OPEN), Name(param), Mark(CLOSE)] else [Name(param)];
    if parenthesised {
      NextTakes(s1, OPEN);
      ExpectTakes(s3, CLOSE);
      TookThen(s1, [Mark(OPEN)], s2, [Name(param)], s3);
      TookThen(s1, [Mark(OPEN)] + [Name(param)], s3, [Mark(CLOSE)], s4);
      assert [Mark(OPEN)] + [Name(param)] + [Mark(CLOSE)] == head;
    }
    TookThen(s1, head, s4, [Mark(EQUALS), Mark(GREATER)], s5);
    assert ArrowTokens(m.arrow) == head + [Mark(EQUALS), Mark(GREATER)];
    TookThen(s1, ArrowTokens(m.arrow), s5, BodyTokens(m.arrow, m.offset), rest);
    TookThen(s, [Mark(OPEN)], s1, ArrowTokens(m.arrow) + BodyTokens(m.arrow, m.offset), rest);
  }

  // ----- Expressions -----

  lemma {:induction false} ExprTakes(s: seq<byte>)
    requires ExprPhrase(s).Some?
    ensures WellFormed(ExprPhrase(s).value.0)
    ensures Took(s, Tokens(ExprPhrase(s).value.0), ExprPhrase(s).value.1)
    decreases |s|, 4
  {
    hide Took, PrimaryPhrase, CallChain, Tokens, WellFormed;
    var (primary, rest) := PrimaryPhrase(s).value;
    PrimaryTakes(s);
    var more := ChainTakes(primary, rest);
    TookThen(s, Tokens(primary), rest, more, ExprPhrase(s).value.1);
  }

  lemma {:induction false} ChainTakes(receiver: Expr, s: seq<byte>) returns (more: seq<Token>)
    requires WellFormed(receiver) && CallChain(receiver, s).Some?
    ensures WellFormed(CallChain(receiver, s).value.0)
    ensures Tokens(CallChain(receiver, s).value.0) == Tokens(receiver) + more
    ensures Took(s, more, CallChain(receiver, s).value.1)
    decreases |s|, 3
  {
    hide Took, Skip, Ident, MethodPhrase, MethodTokens, WellFormedMethod;
    if NextIs(s, DOT) {
      var s1 := Skip(s)[1..];
      var (name, s2) := Ident(s1).value;
      var (m, s3) := MethodPhrase(name, s2).value;
      MethodTakes(name, s2);
      var call := Call(receiver, m);
      assert WellFormed(call);
      var more' := ChainTakes(call, s3);
      NextTakes(s, DOT);
      IdentTakes(s1);
      TookThen(s, [Mark(DOT)], s1, [Name(name)], s2);
      TookThen(s, [Mark(DOT)] + [Name(name)], s2, MethodTokens(m), s3);
      var here := [Mark(DOT)] + [Name(name)] + MethodTokens(m);
      TookThen(s, here, s3, more', CallChain(receiver, s).value.1);
      more := here + more';
      assert [Mark(DOT)] + [Name(name)] == [Mark(DOT), Name(name)];
      Assoc(Tokens(receiver), here, more');
    } else {
      more := [];
      TookNothing(s);
      assert Tokens(receiver) + [] == Tokens(receiver);
    }
  }

  lemma {:induction false} MethodTakes(name: string, s: seq<byte>)
    requires MethodPhrase(name, s).Some?
    ensures WellFormedMethod(MethodPhrase(name, s).value.0)
    ensures MethodName(MethodPhrase(name, s).value.0) == name
    ensures Took(s, MethodTokens(MethodPhrase(name, s).value.0), MethodPhrase(name, s).value.1)
    decreases |s|, 2
  {
    hide Took, SubstringPhrase, SeparatorPhrase, ConcatPhrase, MapPhrase, ArithPhrase, Expect, ArgTokens, ArithTokens;
    if !IsMethodName(name) {
      UnknownMethod(name, s);
    } else if name == "substring" {
      SubstringTakes(s);
    } else if name == "repeat" {
      RepeatTakes(s);
    } else if name == "split" || name == "join" {
      SeparatorTakes(s);
    } else if name == "reverse" {
      var s1 := Expect(s, OPEN).value;
      ExpectTakes(s, OPEN);
      ExpectTakes(s1, CLOSE);
      TookThen(s, [Mark(OPEN)], s1, [Mark(CLOSE)], Expect(s1, CLOSE).value);
      assert [Mark(OPEN)] + [Mark(CLOSE)] == [Mark(OPEN), Mark(CLOSE)];
    } else if name == "concat" {
      ConcatTakes(s);
    } else {
      MapTakes(s);
    }
  }

  lemma {:induction false} ConcatTakes(s: seq<byte>)
    requires ConcatPhrase(s).Some?
    ensures forall a | a in ConcatPhrase(s).value.0 :: WellFormed(a)
    ensures Took(s, [Mark(OPEN)] + ArgTokens(ConcatPhrase(s).value.0), ConcatPhrase(s).value.1)
    decreases |s|, 1
  {
    hide Took, Skip, ConcatArgs, Expect;
    var s1 := Expect(s, OPEN).value;
    var (args, rest) := ConcatPhrase(s).value;
    ExpectTakes(s, OPEN);
    if NextIs(s1, CLOSE) {
      NextTakes(s1, CLOSE);
      TookThen(s, [Mark(OPEN)], s1, [Mark(CLOSE)], rest);
    } else {
      var more := ConcatArgsTake([], s1);
      assert [] + more == more;
      TookThen(s, [Mark(OPEN)], s1, ArgTokens(args), rest);
    }
  }

  lemma {:induction false} ConcatArgsTake(acc: seq<Expr>, s: seq<byte>) returns (more: seq<Expr>)
    requires ConcatArgs(acc, s).Some?
    ensures more != [] && ConcatArgs(acc, s).value.0 == acc + more
    ensures forall a | a in more :: WellFormed(a)
    ensures Took(s, ArgTokens(more), ConcatArgs(acc, s).value.1)
    decreases |s|, 5
  {
    hide Took, Skip, ExprPhrase, Tokens, WellFormed;
    var (arg, s1) := ExprPhrase(s).value;
    var rest := ConcatArgs(acc, s).value.1;
    ExprTakes(s);
    var s2 := Skip(s1)[1..];
    if NextIs(s1, COMMA) {
      var more' := ConcatArgsTake(acc + [arg], s2);
      more := [arg] + more';
      NextTakes(s1, COMMA);
      TookThen(s1, [Mark(COMMA)], s2, ArgTokens(more'), rest);
      TookThen(s, Tokens(arg), s1, [Mark(COMMA)] + ArgTokens(more'), rest);
      assert more[1..] == more';
      Assoc(acc, [arg], more');
    } else {
      more := [arg];
      NextTakes(s1, CLOSE);
      TookThen(s, Tokens(arg), s1, [Mark(CLOSE)], rest);
    }
  }

  // ----- Main results -----

  /** An input has a syntax tree exactly when it is a layout of that tree. */
  lemma AcceptsExactlyLayouts(e: Expr, s: seq<byte>)
    ensures ParseTree(s) == Some(e) <==> WellFormed(e) && LayoutOf(e, s)
  {
    hide ExprPhrase, Skip, Tokens, WellFormed, Lays;
    if ParseTree(s) == Some(e) {
      ExprTakes(s);
      TookSkip(s, Tokens(e), ExprPhrase(s).value.1);
    }
    if WellFormed(e) && LayoutOf(e, s) {
      var pieces: seq<Piece>, gap: seq<byte> :|
        Lays(pieces, Tokens(e)) && AllSpace(gap) && s == Laid(pieces) + gap + [];
      assert Laid(pieces) + gap + [] == Laid(pieces) + gap;
      ParsesBack(e, pieces, gap);
    }
  }

  /** An input evaluates to a text exactly when it is a layout of a tree that means this text. With
      every type, arithmetic and size error being a tree without a meaning, nothing else evaluates. */
  lemma EvaluatesExactlyMeanings(s: seq<byte>, text: string)
    ensures TextMeaning(s) == Some(text)
       <==> exists e :: WellFormed(e) && LayoutOf(e, s) && ExprMeaning.Meaning(e) == Some(ExprMeaning.Str(text))
  {
    hide ParseTree, LayoutOf, WellFormed, ExprMeaning.Meaning;
    if TextMeaning(s) == Some(text) {
      var e := ParseTree(s).value;
      AcceptsExactlyLayouts(e, s);
      assert WellFormed(e) && LayoutOf(e, s) && ExprMeaning.Meaning(e) == Some(ExprMeaning.Str(text));
    }
    if exists e :: WellFormed(e) && LayoutOf(e, s) && ExprMeaning.Meaning(e) == Some(ExprMeaning.Str(text)) {
      var e :| WellFormed(e) && LayoutOf(e, s) && ExprMeaning.Meaning(e) == Some(ExprMeaning.Str(text));
      AcceptsExactlyLayouts(e, s);
    }
  }
}
