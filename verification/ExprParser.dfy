/** The one-pass parser and evaluator of `src/providers/proxynova.rs`. It computes values while it
    reads; each method is proved to do what reading a syntax tree first and evaluating the tree
    afterwards would do. */
module ExprParser {
  import opened Wrappers
  import opened ExprSyntax
  import opened ExprLimits
  import opened ExprMeaning
  import Base64
  import Text
  import Utf8

  class Parser {
    const input: seq<byte>
    var pos: nat

    ghost predicate Valid()
      reads this
    {
      pos <= |input|
    }

    /** What is still to be read. */
    ghost function Rest(): seq<byte>
      reads this
      requires Valid()
    {
      input[pos..]
    }

    /** No value takes more bytes than the input, or than the size cap if that is more. */
    ghost function Limit(): (limit: nat)
      ensures MAX_EVAL_LEN <= limit && |input| <= limit
    {
      if |input| > MAX_EVAL_LEN then |input| else MAX_EVAL_LEN
    }

    constructor (input: seq<byte>)
      ensures Valid() && this.input == input && Rest() == input
    {
      this.input := input;
      pos := 0;
    }

    method SkipWs()
      requires Valid()
      modifies this`pos
      ensures Valid() && Rest() == Skip(old(Rest()))
    {
      while pos < |input| && IsSpace(input[pos])
        invariant Valid() && Skip(Rest()) == Skip(old(Rest()))
      {
        assert input[pos..][1..] == input[pos + 1..];
        pos := pos + 1;
      }
    }

    function Peek(): (b: Option<byte>)
      reads this
      requires Valid()
      ensures b == if Rest() == [] then None else Some(Rest()[0])
    {
      if pos < |input| then Some(input[pos]) else None
    }

    /** Skips white space, and `b` behind it when it is there. */
    method ExpectByte(b: byte) returns (ok: bool)
      requires Valid()
      modifies this`pos
      ensures Valid()
      ensures ok <==> Expect(old(Rest()), b).Some?
      ensures Rest() == if ok then Expect(old(Rest()), b).value else Skip(old(Rest()))
    {
      SkipWs();
      if Peek() == Some(b) {
        pos := pos + 1;
        return true;
      }
      return false;
    }

    method ParseIdent() returns (name: Option<string>)
      requires Valid()
      modifies this`pos
      ensures Valid()
      ensures name == Value(Ident(old(Rest())))
      ensures name.Some? ==> Rest() == Ident(old(Rest())).value.1
    {
      hide Skip, TextOf;
      SkipWs();
      var start := pos;
      ghost var t := Rest();
      var first := Peek();
      if first.None? || !IsIdentStart(first.value) {
        return None;
      }
      pos := pos + 1;
      while pos < |input| && IsIdentByte(input[pos])
        invariant start < pos <= |input|
        invariant IdentLength(t) == pos - start + IdentLength(input[pos..])
      {
        assert input[pos..][1..] == input[pos + 1..];
        pos := pos + 1;
      }
      assert input[start..pos] == t[..pos - start];
      assert t[pos - start..] == input[pos..];
      return Some(TextOf(input[start..pos]));
    }

    method ParseString() returns (text: Option<string>)
      requires Valid()
      modifies this`pos
      ensures Valid()
      ensures text == Value(StringToken(old(Rest())))
      ensures text.Some? ==> Rest() == StringToken(old(Rest())).value.1
    {
      var ok := ExpectByte(QUOTE);
      if !ok {
        return None;
      }
      var bytes: seq<byte> := [];
      ghost var body := Rest();
      while true
        invariant Valid()
        invariant StringBody(Rest(), bytes) == StringBody(body, [])
        decreases |input| - pos
      {
        if pos == |input| {
          return None;
        }
        var b := input[pos];
        assert input[pos..][1..] == input[pos + 1..];
        if b == QUOTE {
          pos := pos + 1;
          break;
        }
        if b == BACKSLASH {
          if pos + 1 == |input| {
            return None;
          }
          assert input[pos..][2..] == input[pos + 2..];
          var escaped := Unescape(input[pos + 1]);
          if escaped.None? {
            return None;
          }
          bytes := bytes + [escaped.value];
          pos := pos + 2;
        } else {
          bytes := bytes + [b];
          pos := pos + 1;
        }
      }
      return Utf8.Decode(bytes);
    }

    /** The loop over the digits of a literal. */
    method SkipDigits()
      requires Valid()
      modifies this`pos
      ensures Valid() && old(pos) <= pos
      ensures pos - old(pos) == DigitCount(old(Rest()))
    {
      ghost var u := Rest();
      ghost var start := pos;
      while pos < |input| && IsDigitByte(input[pos])
        invariant start <= pos <= |input|
        invariant DigitCount(u) == pos - start + DigitCount(input[pos..])
      {
        assert input[pos..][1..] == input[pos + 1..];
        pos := pos + 1;
      }
    }

    /** A literal that does not fit 64 bits is refused. */
    method ParseNumber() returns (value: Option<int>)
      requires Valid()
      modifies this`pos
      ensures Valid()
      ensures match Number(old(Rest()))
              case None => value.None?
              case Some((n, rest)) => value == Checked(n) && (value.Some? ==> Rest() == rest)
    {
      hide Skip, DecimalValue, DigitCount, Checked, Signed;
      SkipWs();
      var start := pos;
      if Peek() == Some(MINUS) {
        pos := pos + 1;
      }
      var digits := pos;
      ghost var u := Rest();
      SkipDigits();
      assert u[..pos - digits] == input[digits..pos];
      assert u[pos - digits..] == Rest();
      if pos == digits {
        return None;
      }
      return Checked(Signed(start < digits, DecimalValue(input[digits..pos])));
    }

    method ParseArith() returns (value: Option<int>)
      requires Valid()
      modifies this`pos
      ensures Valid()
      ensures match ArithPhrase(old(Rest()))
              case None => value.None?
              case Some((a, rest)) => value == ArithValue(a) && (value.Some? ==> Rest() == rest)
    {
      hide Skip, Number, Checked;
      ghost var start := Rest();
      value := ParseNumber();
      ghost var acc := if Number(start).Some? then Num(Number(start).value.0) else Num(0);
      if value.None? {
        if Number(start).Some? {
          ArithTailStrict(acc, Number(start).value.1);
        }
        return;
      }
      while true
        invariant Valid()
        invariant value.Some? && ArithValue(acc) == value
        invariant ArithTail(acc, Rest()) == ArithPhrase(start)
        decreases |input| - pos
      {
        ghost var here := Rest();
        SkipWs();
        var next := Peek();
        if next != Some(PLUS) && next != Some(MINUS) {
          return;
        }
        pos := pos + 1;
        ghost var operand := Number(Rest());
        var rhs := ParseNumber();
        if operand.Some? {
          acc := if next == Some(PLUS) then Plus(acc, operand.value.0) else Minus(acc, operand.value.0);
          if ArithValue(acc).None? {
            ArithTailStrict(acc, operand.value.1);
          }
        }
        if rhs.None? {
          return None;
        }
        value := Checked(if next == Some(PLUS) then value.value + rhs.value else value.value - rhs.value);
        if value.None? {
          return;
        }
      }
    }

    method ParseArray() returns (codes: Option<seq<int>>)
      requires Valid()
      modifies this`pos
      ensures Valid()
      ensures match ArrayPhrase(old(Rest()))
              case None => codes.None?
              case Some((read, rest)) =>
                codes == (if AllRepresentable(read) then Some(read) else None)
                && (codes.Some? ==> Rest() == rest)
    {
      hide Skip, Number;
      var ok := ExpectByte(LBRACKET);
      if !ok {
        return None;
      }
      var items: seq<int> := [];
      ghost var start := Rest();
      SkipWs();
      if Peek() == Some(RBRACKET) {
        pos := pos + 1;
        return Some(items);
      }
      ArrayItemsSkip([], start);
      while true
        invariant Valid() && AllRepresentable(items)
        invariant ArrayItems(items, Rest()) == ArrayItems([], start)
        decreases |input| - pos
      {
        ghost var here := Rest();
        var n := ParseNumber();
        ghost var read := ArrayItems(items, here);
        if n.None? {
          if read.Some? {
            ArrayItemsExtend(items, here);
            assert read.value.0[|items|] == Number(here).value.0;
          }
          return None;
        }
        items := items + [n.value];
        ghost var behind := Rest();
        SkipWs();
        var next := Peek();
        if next == Some(COMMA) {
          pos := pos + 1;
        } else if next == Some(RBRACKET) {
          pos := pos + 1;
          return Some(items);
        } else {
          return None;
        }
      }
    }

    method ParsePrimary() returns (value: Option<Val>)
      requires Valid()
      modifies this`pos
      ensures Valid()
      ensures match PrimaryPhrase(old(Rest()))
              case None => value.None?
              case Some((e, rest)) => value == Meaning(e) && (value.Some? ==> Rest() == rest)
    {
      hide Skip, StringToken, ArrayPhrase, Ident, Base64.Decode, Text.Trim, Utf8.Decode;
      ghost var start := Rest();
      SkipWs();
      TokensSkip(start);
      var next := Peek();
      if next == Some(QUOTE) {
        var text := ParseString();
        return if text.Some? then Some(Str(text.value)) else None;
      }
      if next == Some(LBRACKET) {
        var codes := ParseArray();
        return if codes.Some? then Some(Arr(Codes(codes.value))) else None;
      }
      var name := ParseIdent();
      if name != Some("atob") {
        return None;
      }
      var ok := ExpectByte(OPEN);
      if !ok {
        return None;
      }
      var payload := ParseString();
      if payload.None? {
        return None;
      }
      ok := ExpectByte(CLOSE);
      if !ok {
        return None;
      }
      var bytes := Base64.Decode(Text.Trim(payload.value));
      if bytes.None? {
        return None;
      }
      var text := Utf8.Decode(bytes.value);
      return if text.Some? then Some(Str(text.value)) else None;
    }

    method ParseExpr() returns (value: Option<Val>)
      requires Valid()
      modifies this`pos
      ensures Valid()
      ensures match ExprPhrase(old(Rest()))
              case None => value.None?
              case Some((e, rest)) => value == Meaning(e) && (value.Some? ==> Rest() == rest)
      ensures value.Some? ==> ValueWithin(value.value, Limit())
      decreases |input| - pos, 0
    {
      hide PrimaryPhrase, MethodPhrase, Apply, Skip, Ident, ValueWithin, Limit;
      ghost var start := Rest();
      value := ParsePrimary();
      if value.None? {
        if PrimaryPhrase(start).Some? {
          ChainStrict(PrimaryPhrase(start).value.0, PrimaryPhrase(start).value.1);
        }
        return;
      }
      ghost var tree := PrimaryPhrase(start).value.0;
      PrimaryWithin(start, Limit());
      while true
        invariant Valid() && |Rest()| < |start|
        invariant value.Some? && Meaning(tree) == value
        invariant ValueWithin(value.value, Limit())
        invariant CallChain(tree, Rest()) == ExprPhrase(start)
        decreases |input| - pos
      {
        SkipWs();
        if Peek() != Some(DOT) {
          return;
        }
        pos := pos + 1;
        var name := ParseIdent();
        if name.None? {
          return None;
        }
        ghost var phrase := MethodPhrase(name.value, Rest());
        if !IsMethodName(name.value) {
          UnknownMethod(name.value, Rest());
          return None;
        }
        match name.value {
          case "substring" => value := ApplySubstring(value.value);
          case "repeat" => value := ApplyRepeat(value.value);
          case "split" => value := ApplySplit(value.value);
          case "reverse" => value := ApplyReverse(value.value);
          case "join" => value := ApplyJoin(value.value);
          case "concat" => value := ApplyConcat(value.value);
          case _ => value := ApplyMap(value.value);
        }
        if phrase.Some? {
          ApplyKeepsWithin(Meaning(tree).value, phrase.value.0, Limit());
          tree := Call(tree, phrase.value.0);
          if value.None? {
            ChainStrict(tree, phrase.value.1);
          }
        }
        if value.None? {
          return;
        }
      }
    }

    method ApplySubstring(value: Val) returns (result: Option<Val>)
      requires Valid()
      modifies this`pos
      ensures Valid()
      ensures match MethodPhrase("substring", old(Rest()))
              case None => result.None?
              case Some((m, rest)) => result == Apply(value, m) && (result.Some? ==> Rest() == rest)
    {
      hide Skip, ArithPhrase, ArithValue, SeparatorPhrase, ConcatPhrase, MapPhrase, Limited, Mapped, ConcatMeaning;
      hide Text.SplitOn, Text.Intercalate, Text.RepeatText, Utf8.Encode;
      var ok := ExpectByte(OPEN);
      if !ok {
        return None;
      }
      var start := ParseArith();
      if start.None? {
        return None;
      }
      TokensSkip(Rest());
      SkipWs();
      var end := Some(I64_MAX);
      if Peek() == Some(COMMA) {
        pos := pos + 1;
        end := ParseArith();
        if end.None? {
          return None;
        }
      }
      ok := ExpectByte(CLOSE);
      if !ok || value.Arr? {
        return None;
      }
      var length := |value.text|;
      var from, to := Clamp(start.value, length), Clamp(end.value, length);
      if from > to {
        from, to := to, from;
      }
      return Some(Str(value.text[from..to]));
    }

    method ApplyRepeat(value: Val) returns (result: Option<Val>)
      requires Valid()
      modifies this`pos
      ensures Valid()
      ensures match MethodPhrase("repeat", old(Rest()))
              case None => result.None?
              case Some((m, rest)) => result == Apply(value, m) && (result.Some? ==> Rest() == rest)
    {
      hide Skip, ArithPhrase, ArithValue;
      var ok := ExpectByte(OPEN);
      if !ok {
        return None;
      }
      var count := ParseArith();
      if count.None? {
        return None;
      }
      ok := ExpectByte(CLOSE);
      if !ok || value.Arr? || count.value < 0 {
        return None;
      }
      var total := |Utf8.Encode(value.text)| * count.value;
      if total > MAX_EVAL_LEN {
        return None;
      }
      return Some(Str(Text.RepeatText(value.text, count.value)));
    }

    method ApplySplit(value: Val) returns (result: Option<Val>)
      requires Valid()
      modifies this`pos
      ensures Valid()
      ensures match MethodPhrase("split", old(Rest()))
              case None => result.None?
              case Some((m, rest)) => result == Apply(value, m) && (result.Some? ==> Rest() == rest)
    {
      hide Skip, StringToken;
      var ok := ExpectByte(OPEN);
      if !ok {
        return None;
      }
      var separator := ParseString();
      if separator.None? {
        return None;
      }
      ok := ExpectByte(CLOSE);
      if !ok || value.Arr? {
        return None;
      }
      var parts := if separator.value == "" then Letters(value.text)
                   else Text.SplitOn(value.text, separator.value);
      return Some(Arr(Texts(parts)));
    }

    method ApplyReverse(value: Val) returns (result: Option<Val>)
      requires Valid()
      modifies this`pos
      ensures Valid()
      ensures match MethodPhrase("reverse", old(Rest()))
              case None => result.None?
              case Some((m, rest)) => result == Apply(value, m) && (result.Some? ==> Rest() == rest)
    {
      hide Skip;
      var ok := ExpectByte(OPEN);
      if !ok {
        return None;
      }
      ok := ExpectByte(CLOSE);
      if !ok || value.Str? {
        return None;
      }
      return Some(Arr(Reversed(value.items)));
    }

    method ApplyJoin(value: Val) returns (result: Option<Val>)
      requires Valid()
      modifies this`pos
      ensures Valid()
      ensures match MethodPhrase("join", old(Rest()))
              case None => result.None?
              case Some((m, rest)) => result == Apply(value, m) && (result.Some? ==> Rest() == rest)
    {
      hide Skip, StringToken;
      var ok := ExpectByte(OPEN);
      if !ok {
        return None;
      }
      TokensSkip(Rest());
      SkipWs();
      var separator := ParseString();
      if separator.None? {
        return None;
      }
      ok := ExpectByte(CLOSE);
      if !ok {
        return None;
      }
      if value.Str? {
        return Some(value);
      }
      result := JoinItems(value.items, separator.value);
    }

    /** `concat` evaluates its arguments with the parser it is part of. */
    method ApplyConcat(value: Val) returns (result: Option<Val>)
      requires Valid()
      modifies this`pos
      ensures Valid()
      ensures match MethodPhrase("concat", old(Rest()))
              case None => result.None?
              case Some((m, rest)) => result == Apply(value, m) && (result.Some? ==> Rest() == rest)
      decreases |input| - pos, 0
    {
      hide Skip, ExprPhrase, Meaning, Utf8.Encode, ConcatArgs;
      ghost var phrase := ConcatPhrase(Rest());
      var ok := ExpectByte(OPEN);
      if !ok || value.Arr? {
        return None;
      }
      ghost var start := Rest();
      SkipWs();
      if Peek() == Some(CLOSE) {
        pos := pos + 1;
        return Some(value);
      }
      ArgsSkip([], start);
      result := ParseArgs(value.text);
      if ConcatArgs([], start).Some? {
        ArgsExtend([], start);
      }
    }

    /** The argument loop of `concat`, started on the receiver's text. */
    method ParseArgs(receiver: string) returns (result: Option<Val>)
      requires Valid()
      modifies this`pos
      ensures Valid()
      ensures match ConcatArgs([], old(Rest()))
              case None => result.None?
              case Some((args, rest)) =>
                && result == (if ConcatMeaning(args).None? then None
                              else Limited(receiver + ConcatMeaning(args).value, MAX_EVAL_LEN))
                && (result.Some? ==> Rest() == rest)
      decreases |input| - pos, 1
    {
      hide Skip, ExprPhrase, Meaning, Utf8.Encode;
      ghost var start := Rest();
      var text := receiver;
      ghost var args: seq<Expr> := [];
      while true
        invariant Valid() && |Rest()| <= |start|
        invariant ConcatArgs(args, Rest()) == ConcatArgs([], start)
        invariant ConcatMeaning(args).Some? && text == receiver + ConcatMeaning(args).value
        decreases |input| - pos
      {
        ghost var here := Rest();
        var arg := ParseExpr();
        ghost var tree := if ExprPhrase(here).Some? then ExprPhrase(here).value.0 else Atob("");
        ConcatMeaningAppend(args, tree);
        if ConcatArgs(args, here).Some? {
          ArgsExtend(args, here);
          ConcatMeaningPrefix(args + [tree], ConcatArgs(args, here).value.0, receiver);
        }
        if arg.None? || arg.value.Arr? {
          return None;
        }
        args := args + [tree];
        text := text + arg.value.text;
        assert text == receiver + ConcatMeaning(args).value;
        if |Utf8.Encode(text)| > MAX_EVAL_LEN {
          return None;
        }
        SkipWs();
        var next := Peek();
        if next == Some(COMMA) {
          pos := pos + 1;
        } else if next == Some(CLOSE) {
          pos := pos + 1;
          return Some(Str(text));
        } else {
          return None;
        }
      }
    }

    method ApplyMap(value: Val) returns (result: Option<Val>)
      requires Valid()
      modifies this`pos
      ensures Valid()
      ensures match MethodPhrase("map", old(Rest()))
              case None => result.None?
              case Some((m, rest)) => result == Apply(value, m) && (result.Some? ==> Rest() == rest)
    {
      hide Skip, Ident, MapBody, Apply;
      var ok := ExpectByte(OPEN);
      if !ok {
        return None;
      }
      ghost var start := Rest();
      SkipWs();
      TokensSkip(start);
      var parenthesised := Peek() == Some(OPEN);
      if parenthesised {
        pos := pos + 1;
      }
      var param := ParseIdent();
      if param.None? {
        return None;
      }
      if parenthesised {
        ok := ExpectByte(CLOSE);
        if !ok {
          return None;
        }
      }
      ok := ExpectByte(EQUALS);
      if !ok {
        return None;
      }
      ok := ExpectByte(GREATER);
      if !ok {
        return None;
      }
      result := ParseMapBody(value, param.value, parenthesised);
    }

    method ParseMapBody(value: Val, param: string, ghost parenthesised: bool) returns (result: Option<Val>)
      requires Valid()
      modifies this`pos
      ensures Valid()
      ensures match MapBody(param, parenthesised, old(Rest()))
              case None => result.None?
              case Some((m, rest)) => result == Apply(value, m) && (result.Some? ==> Rest() == rest)
    {
      hide Skip, Ident, CharCodeCall, Apply;
      TokensSkip(Rest());
      CharCodeCallSkips(Arrow(param, parenthesised, false), Rest());
      SkipWs();
      if Peek() == Some(LETTER_S) {
        var callee := ParseIdent();
        if callee != Some("String") {
          return None;
        }
        var ok := ExpectByte(DOT);
        if !ok {
          return None;
        }
        result := ParseCharCodeCall(value, param, Arrow(param, parenthesised, true));
        return;
      }
      result := ParseCharCodeCall(value, param, Arrow(param, parenthesised, false));
    }

    /** The part of `parse_map_body` behind the optional `String.`. */
    method ParseCharCodeCall(value: Val, param: string, ghost arrow: Arrow) returns (result: Option<Val>)
      requires Valid() && arrow.param == param
      modifies this`pos
      ensures Valid()
      ensures match CharCodeCall(arrow, old(Rest()))
              case None => result.None?
              case Some((m, rest)) => result == Apply(value, m) && (result.Some? ==> Rest() == rest)
    {
      hide Skip, Ident, OffsetEnd, Apply, Expect;
      var callee := ParseIdent();
      if callee != Some("fromCharCode") {
        return None;
      }
      var ok := ExpectByte(OPEN);
      if !ok {
        return None;
      }
      var used := ParseIdent();
      if used != Some(param) {
        return None;
      }
      ghost var written := OffsetEnd(Rest());
      var offset := ParseOffsetEnd();
      if written.Some? {
        ApplyMapIs(value, arrow, written.value.0);
      }
      if offset.None? || value.Str? {
        return None;
      }
      result := MapItems(value.items, offset.value);
    }

    method ParseOffsetEnd() returns (offset: Option<int>)
      requires Valid()
      modifies this`pos
      ensures Valid()
      ensures match OffsetEnd(old(Rest()))
              case None => offset.None?
              case Some((written, rest)) =>
                && offset == Checked(if written.Some? then written.value else 0)
                && (offset.Some? ==> Rest() == rest)
    {
      hide Skip, Number;
      TokensSkip(Rest());
      SkipWs();
      offset := Checked(0);
      if Peek() == Some(MINUS) {
        pos := pos + 1;
        offset := ParseNumber();
        if offset.None? {
          return;
        }
      }
      var ok := ExpectByte(CLOSE);
      if !ok {
        return None;
      }
      ok := ExpectByte(CLOSE);
      if !ok {
        return None;
      }
    }
  }

  function Value<T>(read: Option<(T, seq<byte>)>): Option<T> {
    match read case None => None case Some((value, _)) => Some(value)
  }

  // ----- Reading on cannot repair a failed evaluation -----

  lemma SkipTwice(s: seq<byte>)
    ensures Skip(Skip(s)) == Skip(s)
  {
  }

  lemma NumberSkips(s: seq<byte>)
    ensures Number(Skip(s)) == Number(s)
  {
    hide Skip, DigitCount, DecimalValue;
    SkipTwice(s);
  }

  lemma TokensSkip(s: seq<byte>)
    ensures Ident(Skip(s)) == Ident(s) && StringToken(Skip(s)) == StringToken(s)
    ensures forall b: byte :: Expect(Skip(s), b) == Expect(s, b)
    ensures ArrayPhrase(Skip(s)) == ArrayPhrase(s)
  {
    hide Skip, IdentLength, TextOf, StringBody, Utf8.Decode, ArrayItems;
    SkipTwice(s);
  }

  lemma CharCodeCallSkips(arrow: Arrow, s: seq<byte>)
    ensures CharCodeCall(arrow, Skip(s)) == CharCodeCall(arrow, s)
  {
    hide Skip, Ident, Expect, Number;
    TokensSkip(s);
  }

  lemma ApplyMapIs(value: Val, arrow: Arrow, offset: Option<int>)
    ensures Apply(value, Map(arrow, offset))
         == match Checked(if offset.Some? then offset.value else 0)
            case None => None
            case Some(shift) => if value.Arr? then Mapped(value.items, shift) else None
  {
  }

  lemma ArrayItemsSkip(acc: seq<int>, s: seq<byte>)
    ensures ArrayItems(acc, Skip(s)) == ArrayItems(acc, s)
  {
    hide Skip, Number;
    NumberSkips(s);
  }

  lemma {:induction false} ArithTailStrict(acc: Arith, s: seq<byte>)
    requires ArithValue(acc).None?
    ensures ArithTail(acc, s).Some? ==> ArithValue(ArithTail(acc, s).value.0).None?
    decreases |s|
  {
    if NextIs(s, PLUS) || NextIs(s, MINUS) {
      var operand := Number(Skip(s)[1..]);
      if operand.Some? {
        var (n, rest) := operand.value;
        ArithTailStrict(if NextIs(s, PLUS) then Plus(acc, n) else Minus(acc, n), rest);
      }
    }
  }

  lemma {:induction false} ArrayItemsExtend(acc: seq<int>, s: seq<byte>)
    requires ArrayItems(acc, s).Some?
    ensures acc + [Number(s).value.0] <= ArrayItems(acc, s).value.0
    decreases |s|
  {
    var (n, rest) := Number(s).value;
    if NextIs(rest, COMMA) {
      ArrayItemsExtend(acc + [n], Skip(rest)[1..]);
    }
  }

  // ----- The loops over finished arrays -----

  method JoinItems(items: seq<Elem>, separator: string) returns (result: Option<Val>)
    ensures result == Limited(Text.Intercalate(ElemTexts(items), separator), MAX_EVAL_LEN)
  {
    var out := "";
    for i := 0 to |items|
      invariant out == Text.Intercalate(ElemTexts(items)[..i], separator)
      invariant |Utf8.Encode(out)| <= MAX_EVAL_LEN
    {
      ghost var parts := ElemTexts(items);
      Text.IntercalateAppend(parts[..i], parts[i], separator);
      assert parts[..i] + [parts[i]] == parts[..i + 1];
      if i > 0 {
        out := out + separator;
      }
      out := out + ElemText(items[i]);
      if |Utf8.Encode(out)| > MAX_EVAL_LEN {
        IntercalateGrows(parts, i + 1, separator);
        LongerEncodesLonger(out, Text.Intercalate(parts, separator));
        return None;
      }
    }
    assert ElemTexts(items)[..|items|] == ElemTexts(items);
    return Some(Str(out));
  }

  method MapItems(items: seq<Elem>, offset: int) returns (result: Option<Val>)
    ensures result == Mapped(items, offset)
  {
    var out := "";
    for i := 0 to |items|
      invariant forall k :: 0 <= k < i ==> items[k].Code?
      invariant out == CharCodes(items[..i], offset)
      invariant |Utf8.Encode(out)| <= MAX_CHARCODE_LEN
    {
      if items[i].Txt? {
        return None;
      }
      CharCodesAppend(items[..i], items[i], offset);
      assert items[..i] + [items[i]] == items[..i + 1];
      var shifted := Checked(items[i].n - offset);
      if shifted.None? || shifted.value < 0 || shifted.value >= 0x1_0000_0000 || !IsScalar(shifted.value) {
        continue;
      }
      var c := shifted.value as char;
      Utf8.EncodeConcat(out, [c]);
      EncodeOne(c);
      out := out + [c];
      if |Utf8.Encode(out)| > MAX_CHARCODE_LEN {
        if forall k :: 0 <= k < |items| ==> items[k].Code? {
          CharCodesGrow(items, i + 1, offset);
          LongerEncodesLonger(out, CharCodes(items, offset));
        }
        return None;
      }
    }
    assert items[..|items|] == items;
    return Some(Str(out));
  }

  lemma EncodeOne(c: char)
    ensures Utf8.Encode([c]) == Utf8.EncodeChar(c)
  {
    assert Utf8.Encode([c]) == Utf8.EncodeChar(c) + Utf8.Encode("");
  }

  lemma LongerEncodesLonger(s: string, t: string)
    requires s <= t
    ensures |Utf8.Encode(s)| <= |Utf8.Encode(t)|
  {
    Utf8.EncodeConcat(s, t[|s|..]);
    assert s + t[|s|..] == t;
  }

  lemma {:induction false} IntercalateGrows(parts: seq<string>, k: nat, separator: string)
    requires k <= |parts|
    ensures Text.Intercalate(parts[..k], separator) <= Text.Intercalate(parts, separator)
    decreases |parts| - k
  {
    if k < |parts| {
      IntercalateGrows(parts, k + 1, separator);
      Text.IntercalateAppend(parts[..k], parts[k], separator);
      assert parts[..k] + [parts[k]] == parts[..k + 1];
    } else {
      assert parts[..k] == parts;
    }
  }

  lemma {:induction false} CharCodesAppend(items: seq<Elem>, last: Elem, shift: int)
    requires last.Code? && forall i :: 0 <= i < |items| ==> items[i].Code?
    ensures CharCodes(items + [last], shift) == CharCodes(items, shift) + CharCode(last.n, shift)
  {
    if items == [] {
      assert CharCodes([last], shift) == CharCode(last.n, shift) + CharCodes([], shift);
    } else {
      CharCodesAppend(items[1..], last, shift);
      assert (items + [last])[1..] == items[1..] + [last];
    }
  }

  lemma {:induction false} CharCodesGrow(items: seq<Elem>, k: nat, shift: int)
    requires k <= |items| && forall i :: 0 <= i < |items| ==> items[i].Code?
    ensures CharCodes(items[..k], shift) <= CharCodes(items, shift)
    decreases |items| - k
  {
    if k < |items| {
      CharCodesGrow(items, k + 1, shift);
      CharCodesAppend(items[..k], items[k], shift);
      assert items[..k] + [items[k]] == items[..k + 1];
    } else {
      assert items[..k] == items;
    }
  }

  // ----- Calls -----

  predicate IsMethodName(name: string) {
    name == "substring" || name == "repeat" || name == "split" || name == "reverse"
    || name == "join" || name == "concat" || name == "map"
  }

  lemma UnknownMethod(name: string, s: seq<byte>)
    requires !IsMethodName(name)
    ensures MethodPhrase(name, s).None?
  {
  }

  lemma {:induction false} ChainStrict(tree: Expr, s: seq<byte>)
    requires Meaning(tree).None?
    ensures CallChain(tree, s).Some? ==> Meaning(CallChain(tree, s).value.0).None?
    decreases |s|
  {
    hide MethodPhrase, Skip, Ident, Apply;
    if NextIs(s, DOT) && Ident(Skip(s)[1..]).Some? {
      var (name, s1) := Ident(Skip(s)[1..]).value;
      if MethodPhrase(name, s1).Some? {
        var (m, rest) := MethodPhrase(name, s1).value;
        ChainStrict(Call(tree, m), rest);
      }
    }
  }

  lemma ArgsSkip(args: seq<Expr>, s: seq<byte>)
    ensures ConcatArgs(args, Skip(s)) == ConcatArgs(args, s)
  {
    hide Skip, CallChain, Ident, StringToken, ArrayPhrase;
    SkipTwice(s);
    TokensSkip(s);
    assert PrimaryPhrase(Skip(s)) == PrimaryPhrase(s);
    assert ExprPhrase(Skip(s)) == ExprPhrase(s);
  }

  lemma {:induction false} ArgsExtend(args: seq<Expr>, s: seq<byte>)
    requires ConcatArgs(args, s).Some?
    ensures args + [ExprPhrase(s).value.0] <= ConcatArgs(args, s).value.0
    decreases |s|
  {
    hide ExprPhrase, Skip;
    var (arg, rest) := ExprPhrase(s).value;
    if NextIs(rest, COMMA) {
      ArgsExtend(args + [arg], Skip(rest)[1..]);
    }
  }

  lemma {:induction false} ConcatMeaningAppend(args: seq<Expr>, last: Expr)
    ensures ConcatMeaning(args + [last])
         == if ConcatMeaning(args).Some? && Meaning(last).Some? && Meaning(last).value.Str?
            then Some(ConcatMeaning(args).value + Meaning(last).value.text) else None
  {
    hide Meaning;
    if args == [] {
      assert args + [last] == [last];
      assert ConcatMeaning([]) == Some("");
      if Meaning(last).Some? && Meaning(last).value.Str? {
        assert Meaning(last).value.text + "" == "" + Meaning(last).value.text;
      }
    } else {
      ConcatMeaningAppend(args[1..], last);
      assert (args + [last])[1..] == args[1..] + [last];
      if ConcatMeaning(args + [last]).Some? {
        assert Meaning(args[0]).value.text + (ConcatMeaning(args[1..]).value + Meaning(last).value.text)
            == ConcatMeaning(args).value + Meaning(last).value.text;
      }
    }
  }

  /** A prefix without meaning, or too long, leaves the whole argument list so. */
  lemma {:induction false} ConcatMeaningPrefix(some: seq<Expr>, all: seq<Expr>, head: string)
    requires some <= all
    ensures ConcatMeaning(all).Some? ==>
              && ConcatMeaning(some).Some?
              && |Utf8.Encode(head + ConcatMeaning(some).value)| <= |Utf8.Encode(head + ConcatMeaning(all).value)|
    decreases |all| - |some|
  {
    hide Meaning, Utf8.Encode;
    if |some| < |all| {
      var next := all[|some|];
      assert all[..|some|] + [next] <= all;
      ConcatMeaningPrefix(some + [next], all, head);
      ConcatMeaningAppend(some, next);
      if ConcatMeaning(all).Some? {
        LongerEncodesLonger(head + ConcatMeaning(some).value, head + ConcatMeaning(some + [next]).value);
      }
    } else {
      assert some == all;
    }
  }

  // ----- Entry points -----

  /** `eval_proxynova_expr`: a string value and nothing behind the expression. */
  method EvalExpr(raw: string) returns (text: Option<string>)
    ensures text == TextMeaning(Utf8.Encode(raw))
  {
    hide ExprPhrase, Meaning, Utf8.Encode, Skip;
    var parser := new Parser(Utf8.Encode(raw));
    var value := parser.ParseExpr();
    if value.None? {
      return None;
    }
    parser.SkipWs();
    if parser.pos != |parser.input| || value.value.Arr? {
      return None;
    }
    return Some(value.value.text);
  }

  /** The text an input stands for: it has a syntax tree and the tree means a string. */
  function TextMeaning(input: seq<byte>): Option<string> {
    var tree :- ParseTree(input);
    var value :- Meaning(tree);
    if value.Str? then Some(value.text) else None
  }
}
