/** The expression language of the ProxyNova feed, `src/providers/proxynova.rs`: its syntax trees and
    its grammar. The grammar functions read a prefix of the remaining input and return what they read
    together with the input they left over. They give no meaning to what they read. */
module ExprSyntax {
  import opened Wrappers
  import Utf8

  /** `code-N`, `5-2+1`: a left-associative chain over integer literals. */
  datatype Arith = Num(n: int) | Plus(left: Arith, n: int) | Minus(left: Arith, n: int)

  datatype Expr =
    | StringLit(text: string)
    | ArrayLit(codes: seq<int>)
    | Atob(payload: string)
    | Call(receiver: Expr, operation: Method)

  datatype Method =
    | Substring(start: Arith, end: Option<Arith>)
    | Repeat(count: Arith)
    | Split(separator: string)
    | Reverse
    | Join(separator: string)
    | Concat(args: seq<Expr>)
    | Map(arrow: Arrow, offset: Option<int>)

  /** How a `map` callback is spelled: its parameter, whether it is parenthesised, and whether the
      callee is written `String.fromCharCode`. */
  datatype Arrow = Arrow(param: string, parenthesised: bool, qualified: bool)

  // ----- Characters -----

  predicate IsSpace(b: byte) {
    b == 0x20 || b == 0x09 || b == 0x0A || b == 0x0C || b == 0x0D
  }

  predicate IsDigitByte(b: byte) {
    0x30 <= b <= 0x39
  }

  predicate IsIdentStart(b: byte) {
    0x41 <= b <= 0x5A || 0x61 <= b <= 0x7A || b == 0x5F || b == 0x24
  }

  predicate IsIdentByte(b: byte) {
    IsIdentStart(b) || IsDigitByte(b)
  }

  const QUOTE: byte := 0x22
  const BACKSLASH: byte := 0x5C
  const OPEN: byte := 0x28
  const CLOSE: byte := 0x29
  const LBRACKET: byte := 0x5B
  const RBRACKET: byte := 0x5D
  const COMMA: byte := 0x2C
  const DOT: byte := 0x2E
  const PLUS: byte := 0x2B
  const MINUS: byte := 0x2D
  const EQUALS: byte := 0x3D
  const GREATER: byte := 0x3E
  const LETTER_S: byte := 0x53

  // ----- Tokens -----

  function Skip(s: seq<byte>): (rest: seq<byte>)
    ensures |rest| <= |s|
    ensures rest != [] ==> !IsSpace(rest[0])
  {
    if s != [] && IsSpace(s[0]) then Skip(s[1..]) else s
  }

  /** The next byte after white space is `b`. */
  predicate NextIs(s: seq<byte>, b: byte) {
    Skip(s) != [] && Skip(s)[0] == b
  }

  function Expect(s: seq<byte>, b: byte): (r: Option<seq<byte>>)
    ensures r.Some? ==> |r.value| < |s|
  {
    if NextIs(s, b) then Some(Skip(s)[1..]) else None
  }

  function IdentLength(s: seq<byte>): (n: nat)
    ensures n <= |s|
  {
    if s != [] && IsIdentByte(s[0]) then 1 + IdentLength(s[1..]) else 0
  }

  function TextOf(bs: seq<byte>): string {
    seq(|bs|, i requires 0 <= i < |bs| => bs[i] as char)
  }

  function Ident(s: seq<byte>): (r: Option<(string, seq<byte>)>)
    ensures r.Some? ==> |r.value.1| < |s|
  {
    var t := Skip(s);
    if t == [] || !IsIdentStart(t[0]) then None
    else Some((TextOf(t[..IdentLength(t)]), t[IdentLength(t)..]))
  }

  function Unescape(b: byte): Option<byte> {
    if b == QUOTE then Some(QUOTE)
    else if b == BACKSLASH then Some(BACKSLASH)
    else if b == 0x6E then Some(0x0A)
    else if b == 0x74 then Some(0x09)
    else if b == 0x72 then Some(0x0D)
    else None
  }

  /** The bytes up to the closing quote, with escapes resolved. */
  function StringBody(s: seq<byte>, acc: seq<byte>): (r: Option<(seq<byte>, seq<byte>)>)
    ensures r.Some? ==> |r.value.1| < |s| && |r.value.0| + |r.value.1| < |acc| + |s|
    decreases |s|
  {
    if s == [] then None
    else if s[0] == QUOTE then Some((acc, s[1..]))
    else if s[0] == BACKSLASH then
      if |s| == 1 then None
      else
        var b :- Unescape(s[1]);
        StringBody(s[2..], acc + [b])
    else StringBody(s[1..], acc + [s[0]])
  }

  function StringToken(s: seq<byte>): (r: Option<(string, seq<byte>)>)
    ensures r.Some? ==> |r.value.1| < |s|
  {
    var body :- Expect(s, QUOTE);
    var (bytes, rest) :- StringBody(body, []);
    var text :- Utf8.Decode(bytes);
    Some((text, rest))
  }

  function DigitCount(s: seq<byte>): (n: nat)
    ensures n <= |s|
    ensures forall i :: 0 <= i < n ==> IsDigitByte(s[i])
  {
    if s != [] && IsDigitByte(s[0]) then 1 + DigitCount(s[1..]) else 0
  }

  function DigitValue(b: byte): nat
    requires IsDigitByte(b)
  {
    var value: int := b;
    value - 0x30
  }

  function DecimalValue(digits: seq<byte>): nat
    requires forall i :: 0 <= i < |digits| ==> IsDigitByte(digits[i])
  {
    if digits == [] then 0
    else 10 * DecimalValue(digits[..|digits| - 1]) + DigitValue(digits[|digits| - 1])
  }

  predicate HasSign(t: seq<byte>) {
    t != [] && t[0] == MINUS
  }

  function Number(s: seq<byte>): (r: Option<(int, seq<byte>)>)
    ensures r.Some? ==> |r.value.1| < |s|
  {
    var t := Skip(s);
    var u := if HasSign(t) then t[1..] else t;
    var n := DigitCount(u);
    if n == 0 then None else Some((Signed(HasSign(t), DecimalValue(u[..n])), u[n..]))
  }

  function Signed(negative: bool, magnitude: int): int {
    if negative then -magnitude else magnitude
  }

  // ----- Phrases -----

  function ArithTail(acc: Arith, s: seq<byte>): (r: Option<(Arith, seq<byte>)>)
    ensures r.Some? ==> |r.value.1| <= |s|
    decreases |s|
  {
    if NextIs(s, PLUS) then
      var (n, rest) :- Number(Skip(s)[1..]);
      ArithTail(Plus(acc, n), rest)
    else if NextIs(s, MINUS) then
      var (n, rest) :- Number(Skip(s)[1..]);
      ArithTail(Minus(acc, n), rest)
    else Some((acc, Skip(s)))
  }

  function ArithPhrase(s: seq<byte>): (r: Option<(Arith, seq<byte>)>)
    ensures r.Some? ==> |r.value.1| < |s|
  {
    var (n, rest) :- Number(s);
    ArithTail(Num(n), rest)
  }

  function ArrayItems(acc: seq<int>, s: seq<byte>): (r: Option<(seq<int>, seq<byte>)>)
    ensures r.Some? ==> |r.value.1| < |s|
    decreases |s|
  {
    var (n, rest) :- Number(s);
    if NextIs(rest, COMMA) then ArrayItems(acc + [n], Skip(rest)[1..])
    else if NextIs(rest, RBRACKET) then Some((acc + [n], Skip(rest)[1..]))
    else None
  }

  function ArrayPhrase(s: seq<byte>): (r: Option<(seq<int>, seq<byte>)>)
    ensures r.Some? ==> |r.value.1| < |s|
  {
    var items :- Expect(s, LBRACKET);
    if NextIs(items, RBRACKET) then Some(([], Skip(items)[1..])) else ArrayItems([], items)
  }

  function PrimaryPhrase(s: seq<byte>): (r: Option<(Expr, seq<byte>)>)
    ensures r.Some? ==> |r.value.1| < |s|
  {
    if NextIs(s, QUOTE) then
      var (text, rest) :- StringToken(s);
      Some((StringLit(text), rest))
    else if NextIs(s, LBRACKET) then
      var (codes, rest) :- ArrayPhrase(s);
      Some((ArrayLit(codes), rest))
    else
      var (name, s1) :- Ident(s);
      if name != "atob" then None
      else
        var s2 :- Expect(s1, OPEN);
        var (payload, s3) :- StringToken(s2);
        var rest :- Expect(s3, CLOSE);
        Some((Atob(payload), rest))
  }

  function ExprPhrase(s: seq<byte>): (r: Option<(Expr, seq<byte>)>)
    ensures r.Some? ==> |r.value.1| < |s|
    decreases |s|, 4
  {
    var (primary, rest) :- PrimaryPhrase(s);
    CallChain(primary, rest)
  }

  /** The calls that follow `receiver`. */
  function CallChain(receiver: Expr, s: seq<byte>): (r: Option<(Expr, seq<byte>)>)
    ensures r.Some? ==> |r.value.1| <= |s|
    decreases |s|, 3
  {
    if !NextIs(s, DOT) then Some((receiver, Skip(s)))
    else
      var (name, s1) :- Ident(Skip(s)[1..]);
      var (m, rest) :- MethodPhrase(name, s1);
      CallChain(Call(receiver, m), rest)
  }

  function MethodPhrase(name: string, s: seq<byte>): (r: Option<(Method, seq<byte>)>)
    ensures r.Some? ==> |r.value.1| < |s|
    decreases |s|, 2
  {
    if name == "substring" then SubstringPhrase(s)
    else if name == "repeat" then
      var s1 :- Expect(s, OPEN);
      var (count, s2) :- ArithPhrase(s1);
      var rest :- Expect(s2, CLOSE);
      Some((Repeat(count), rest))
    else if name == "split" then
      var (separator, rest) :- SeparatorPhrase(s);
      Some((Split(separator), rest))
    else if name == "reverse" then
      var s1 :- Expect(s, OPEN);
      var rest :- Expect(s1, CLOSE);
      Some((Reverse, rest))
    else if name == "join" then
      var (separator, rest) :- SeparatorPhrase(s);
      Some((Join(separator), rest))
    else if name == "concat" then
      var (args, rest) :- ConcatPhrase(s);
      Some((Concat(args), rest))
    else if name == "map" then MapPhrase(s)
    else None
  }

  function SubstringPhrase(s: seq<byte>): (r: Option<(Method, seq<byte>)>)
    ensures r.Some? ==> |r.value.1| < |s| && r.value.0.Substring?
  {
    var s1 :- Expect(s, OPEN);
    var (start, s2) :- ArithPhrase(s1);
    var (end, rest) :- SubstringEnd(s2);
    Some((Substring(start, end), rest))
  }

  /** The optional second bound and the closing parenthesis. */
  function SubstringEnd(s: seq<byte>): (r: Option<(Option<Arith>, seq<byte>)>)
    ensures r.Some? ==> |r.value.1| < |s|
  {
    if NextIs(s, COMMA) then
      var (end, s1) :- ArithPhrase(Skip(s)[1..]);
      var rest :- Expect(s1, CLOSE);
      Some((Some(end), rest))
    else
      var rest :- Expect(s, CLOSE);
      Some((None, rest))
  }

  function SeparatorPhrase(s: seq<byte>): (r: Option<(string, seq<byte>)>)
    ensures r.Some? ==> |r.value.1| < |s|
  {
    var s1 :- Expect(s, OPEN);
    var (separator, s2) :- StringToken(s1);
    var rest :- Expect(s2, CLOSE);
    Some((separator, rest))
  }

  function ConcatPhrase(s: seq<byte>): (r: Option<(seq<Expr>, seq<byte>)>)
    ensures r.Some? ==> |r.value.1| < |s|
    decreases |s|, 1
  {
    var s1 :- Expect(s, OPEN);
    if NextIs(s1, CLOSE) then Some(([], Skip(s1)[1..])) else ConcatArgs([], s1)
  }

  function ConcatArgs(acc: seq<Expr>, s: seq<byte>): (r: Option<(seq<Expr>, seq<byte>)>)
    ensures r.Some? ==> |r.value.1| < |s|
    decreases |s|, 5
  {
    var (arg, rest) :- ExprPhrase(s);
    if NextIs(rest, COMMA) then ConcatArgs(acc + [arg], Skip(rest)[1..])
    else if NextIs(rest, CLOSE) then Some((acc + [arg], Skip(rest)[1..]))
    else None
  }

  function MapPhrase(s: seq<byte>): (r: Option<(Method, seq<byte>)>)
    ensures r.Some? ==> |r.value.1| < |s| && r.value.0.Map?
  {
    var s1 :- Expect(s, OPEN);
    if NextIs(s1, OPEN) then
      var (param, s2) :- Ident(Skip(s1)[1..]);
      var s3 :- Expect(s2, CLOSE);
      var s4 :- Expect(s3, EQUALS);
      var s5 :- Expect(s4, GREATER);
      MapBody(param, true, s5)
    else
      var (param, s2) :- Ident(s1);
      var s3 :- Expect(s2, EQUALS);
      var s4 :- Expect(s3, GREATER);
      MapBody(param, false, s4)
  }

  /** The callback's body and the parenthesis that closes the `map` call. A callee that starts with
      an `S` must be the qualified one. */
  function MapBody(param: string, parenthesised: bool, s: seq<byte>): (r: Option<(Method, seq<byte>)>)
    ensures r.Some? ==> |r.value.1| < |s| && r.value.0.Map?
  {
    if NextIs(s, LETTER_S) then
      var (callee, s1) :- Ident(s);
      if callee != "String" then None
      else
        var s2 :- Expect(s1, DOT);
        CharCodeCall(Arrow(param, parenthesised, true), s2)
    else CharCodeCall(Arrow(param, parenthesised, false), s)
  }

  function CharCodeCall(arrow: Arrow, s: seq<byte>): (r: Option<(Method, seq<byte>)>)
    ensures r.Some? ==> |r.value.1| < |s| && r.value.0.Map?
  {
    var (callee, s1) :- Ident(s);
    if callee != "fromCharCode" then None
    else
      var s2 :- Expect(s1, OPEN);
      var (used, s3) :- Ident(s2);
      if used != arrow.param then None
      else
        var (offset, rest) :- OffsetEnd(s3);
        Some((Map(arrow, offset), rest))
  }

  /** The optional offset of the callback, and the two closing parentheses. */
  function OffsetEnd(s: seq<byte>): (r: Option<(Option<int>, seq<byte>)>)
    ensures r.Some? ==> |r.value.1| < |s|
  {
    if NextIs(s, MINUS) then
      var (offset, s1) :- Number(Skip(s)[1..]);
      var s2 :- Expect(s1, CLOSE);
      var rest :- Expect(s2, CLOSE);
      Some((Some(offset), rest))
    else
      var s1 :- Expect(s, CLOSE);
      var rest :- Expect(s1, CLOSE);
      Some((None, rest))
  }

  /** The tree of a whole input. */
  function ParseTree(s: seq<byte>): Option<Expr> {
    var (e, rest) :- ExprPhrase(s);
    if Skip(rest) == [] then Some(e) else None
  }
}
