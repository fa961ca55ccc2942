/** The string operations of the standard library that the program relies on. */
module Text {
  import opened Wrappers

  // ----- Whitespace -----

  /** `char::is_whitespace`: the Unicode property White_Space. */
  predicate IsWhitespace(c: char) {
    var x := c as int;
    || 0x09 <= x <= 0x0D || x == 0x20 || x == 0x85 || x == 0xA0 || x == 0x1680
    || 0x2000 <= x <= 0x200A || x == 0x2028 || x == 0x2029 || x == 0x202F || x == 0x205F || x == 0x3000
  }

  function TrimStart(s: string): string {
    if s != "" && IsWhitespace(s[0]) then TrimStart(s[1..]) else s
  }

  function TrimEnd(s: string): string {
    if s != "" && IsWhitespace(s[|s| - 1]) then TrimEnd(s[..|s| - 1]) else s
  }

  function Trim(s: string): string {
    TrimEnd(TrimStart(s))
  }

  // ----- Splitting and joining -----

  predicate OccursAt(text: string, sep: string, i: nat) {
    i + |sep| <= |text| && text[i..i + |sep|] == sep
  }

  /** The first index at or behind `from` where `sep` occurs. */
  function Find(text: string, sep: string, from: nat): (r: Option<nat>)
    ensures r.Some? ==> from <= r.value && OccursAt(text, sep, r.value)
    ensures forall i: nat :: from <= i && (r.Some? ==> i < r.value) ==> !OccursAt(text, sep, i)
    decreases |text| - from
  {
    if from + |sep| > |text| then None
    else if OccursAt(text, sep, from) then Some(from)
    else Find(text, sep, from + 1)
  }

  /** `str::split` with a non-empty separator. */
  function SplitOn(text: string, sep: string): (parts: seq<string>)
    requires sep != ""
    ensures parts != []
    decreases |text|
  {
    match Find(text, sep, 0)
    case None => [text]
    case Some(i) => [text[..i]] + SplitOn(text[i + |sep|..], sep)
  }

  function Intercalate(parts: seq<string>, sep: string): string {
    if parts == [] then ""
    else if |parts| == 1 then parts[0]
    else parts[0] + sep + Intercalate(parts[1..], sep)
  }

  lemma {:induction false} IntercalateSplit(text: string, sep: string)
    requires sep != ""
    ensures Intercalate(SplitOn(text, sep), sep) == text
    decreases |text|
  {
    match Find(text, sep, 0)
    case None =>
    case Some(i) =>
      IntercalateSplit(text[i + |sep|..], sep);
      assert SplitOn(text, sep)[1..] == SplitOn(text[i + |sep|..], sep);
      assert text[..i] + sep + text[i + |sep|..] == text;
  }

  lemma {:induction false} IntercalateAppend(parts: seq<string>, last: string, sep: string)
    ensures Intercalate(parts + [last], sep)
         == if parts == [] then last else Intercalate(parts, sep) + sep + last
  {
    if |parts| > 1 {
      IntercalateAppend(parts[1..], last, sep);
      assert (parts + [last])[1..] == parts[1..] + [last];
    } else if |parts| == 1 {
      assert (parts + [last])[1..] == [last];
    }
  }

  function RepeatText(text: string, count: nat): string {
    if count == 0 then "" else text + RepeatText(text, count - 1)
  }

  // ----- Decimal numerals -----

  predicate IsDigit(c: char) {
    '0' <= c <= '9'
  }

  predicate AllDigits(s: string) {
    forall i :: 0 <= i < |s| ==> IsDigit(s[i])
  }

  function DigitChar(d: int): (c: char)
    requires 0 <= d < 10
    ensures IsDigit(c) && c as int - '0' as int == d
  {
    ('0' as int + d) as char
  }

  /** `to_string` of a natural number. */
  function NatText(n: nat): (s: string)
    ensures s != "" && AllDigits(s)
    ensures s[0] == '0' ==> n == 0 && s == "0"
  {
    if n < 10 then [DigitChar(n)] else NatText(n / 10) + [DigitChar(n % 10)]
  }

  /** `to_string` of an integer. */
  function IntText(n: int): string {
    if n < 0 then "-" + NatText(-n) else NatText(n)
  }

  function DigitsValue(s: string): nat
    requires AllDigits(s)
  {
    if s == "" then 0 else 10 * DigitsValue(s[..|s| - 1]) + (s[|s| - 1] as int - '0' as int)
  }

  lemma {:induction false} DigitsValueOfNatText(n: nat)
    ensures DigitsValue(NatText(n)) == n
  {
    var s := NatText(n);
    if n < 10 {
      assert s[..0] == "";
    } else {
      assert s[..|s| - 1] == NatText(n / 10);
      DigitsValueOfNatText(n / 10);
    }
  }

  // ----- Trimming what has nothing to trim -----

  lemma TrimmedAlready(s: string)
    requires s == "" || (!IsWhitespace(s[0]) && !IsWhitespace(s[|s| - 1]))
    ensures Trim(s) == s
  {
  }
}
