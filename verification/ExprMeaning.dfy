/** What an expression of the ProxyNova feed means: a compositional evaluator over syntax trees. The
    limits are stated on finished values, not on the way to them. */
module ExprMeaning {
  import opened Wrappers
  import opened ExprSyntax
  import Base64
  import Text
  import Utf8

  datatype Val = Str(text: string) | Arr(items: seq<Elem>)

  datatype Elem = Code(n: int) | Txt(text: string)

  /** Limit on the bytes of a repeated, joined or concatenated string. */
  const MAX_EVAL_LEN := 512

  /** Limit on the bytes of a decoded charcode array. */
  const MAX_CHARCODE_LEN := 64

  const I64_MAX := 0x7FFF_FFFF_FFFF_FFFF

  /** Checked 64-bit arithmetic: a value is there only when it is representable. */
  function Checked(n: int): Option<int> {
    if -I64_MAX - 1 <= n <= I64_MAX then Some(n) else None
  }

  predicate AllRepresentable(codes: seq<int>) {
    forall i :: 0 <= i < |codes| ==> Checked(codes[i]).Some?
  }

  function Limited(text: string, limit: nat): Option<Val> {
    if |Utf8.Encode(text)| <= limit then Some(Str(text)) else None
  }

  function ArithValue(a: Arith): (r: Option<int>)
    ensures r.Some? ==> Checked(r.value).Some?
  {
    match a
    case Num(n) => Checked(n)
    case Plus(left, n) =>
      var x :- ArithValue(left);
      var y :- Checked(n);
      Checked(x + y)
    case Minus(left, n) =>
      var x :- ArithValue(left);
      var y :- Checked(n);
      Checked(x - y)
  }

  function Meaning(e: Expr): Option<Val>
    decreases e, 1
  {
    match e
    case StringLit(text) => Some(Str(text))
    case ArrayLit(codes) =>
      if AllRepresentable(codes) then Some(Arr(Codes(codes))) else None
    case Atob(payload) =>
      var bytes :- Base64.Decode(Text.Trim(payload));
      var text :- Utf8.Decode(bytes);
      Some(Str(text))
    case Call(receiver, m) =>
      var value :- Meaning(receiver);
      Apply(value, m)
  }

  function Apply(value: Val, m: Method): Option<Val>
    decreases m, 0
  {
    match m
    case Substring(start, end) =>
      var from :- ArithValue(start);
      var to :- if end.Some? then ArithValue(end.value) else Some(I64_MAX);
      if value.Str? then Some(Str(Between(value.text, from, to))) else None
    case Repeat(count) =>
      var n :- ArithValue(count);
      if value.Arr? || n < 0 || |Utf8.Encode(value.text)| * n > MAX_EVAL_LEN then None
      else Some(Str(Text.RepeatText(value.text, n)))
    case Split(separator) =>
      if value.Arr? then None
      else if separator == "" then Some(Arr(Texts(Letters(value.text))))
      else Some(Arr(Texts(Text.SplitOn(value.text, separator))))
    case Reverse => if value.Arr? then Some(Arr(Reversed(value.items))) else None
    case Join(separator) =>
      if value.Str? then Some(value)
      else Limited(Text.Intercalate(ElemTexts(value.items), separator), MAX_EVAL_LEN)
    case Concat(args) =>
      if value.Arr? then None
      else if args == [] then Some(value)
      else
        var tail :- ConcatMeaning(args);
        Limited(value.text + tail, MAX_EVAL_LEN)
    case Map(_, offset) =>
      var shift :- Checked(if offset.Some? then offset.value else 0);
      if value.Arr? then Mapped(value.items, shift) else None
  }

  function Mapped(items: seq<Elem>, shift: int): Option<Val> {
    if forall i :: 0 <= i < |items| ==> items[i].Code?
    then Limited(CharCodes(items, shift), MAX_CHARCODE_LEN)
    else None
  }

  /** The arguments of `concat`, in a row; all of them must be strings. */
  function ConcatMeaning(args: seq<Expr>): Option<string>
    decreases args
  {
    if args == [] then Some("")
    else
      var value :- Meaning(args[0]);
      var tail :- ConcatMeaning(args[1..]);
      if value.Str? then Some(value.text + tail) else None
  }

  // ----- Values -----

  function Clamp(x: int, high: nat): (r: nat)
    ensures r <= high
  {
    if x < 0 then 0 else if x > high then high else x
  }

  /** Both bounds clamped to the string, in either order. */
  function Between(text: string, from: int, to: int): string {
    var i, j := Clamp(from, |text|), Clamp(to, |text|);
    if i <= j then text[i..j] else text[j..i]
  }

  function Letters(text: string): seq<string> {
    seq(|text|, i requires 0 <= i < |text| => [text[i]])
  }

  function Codes(codes: seq<int>): seq<Elem> {
    seq(|codes|, i requires 0 <= i < |codes| => Code(codes[i]))
  }

  function Texts(parts: seq<string>): seq<Elem> {
    seq(|parts|, i requires 0 <= i < |parts| => Txt(parts[i]))
  }

  function ElemText(item: Elem): string {
    match item case Code(n) => Text.IntText(n) case Txt(text) => text
  }

  function ElemTexts(items: seq<Elem>): seq<string> {
    seq(|items|, i requires 0 <= i < |items| => ElemText(items[i]))
  }

  function Reversed(items: seq<Elem>): seq<Elem> {
    seq(|items|, i requires 0 <= i < |items| => items[|items| - 1 - i])
  }

  predicate IsScalar(x: int) {
    0 <= x < 0xD800 || 0xE000 <= x < 0x11_0000
  }

  /** The character a shifted code names, if it names one. */
  function CharCode(code: int, shift: int): string {
    if IsScalar(code - shift) then [(code - shift) as char] else ""
  }

  function CharCodes(items: seq<Elem>, shift: int): string
    requires forall i :: 0 <= i < |items| ==> items[i].Code?
  {
    if items == [] then "" else CharCode(items[0].n, shift) + CharCodes(items[1..], shift)
  }
}
