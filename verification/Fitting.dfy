/** Fitting a line with ANSI escapes to a terminal width, `src/cli/progress.rs`. */
module Fitting {
  import opened Wrappers

  const ESC: char := '\U{1b}'

  predicate IsLetter(c: char) {
    'A' <= c <= 'Z' || 'a' <= c <= 'z'
  }

  // ----- Lines as columns and escapes -----

  /** Length of the escape's remainder: up to and with its final letter, or all of `s`. */
  function EscapeLength(s: string): (n: nat)
    ensures n <= |s|
  {
    if s == "" then 0 else if IsLetter(s[0]) then 1 else 1 + EscapeLength(s[1..])
  }

  /** A column, a terminated escape, or an escape that the line ends in. */
  datatype Unit = Column(c: char) | Escape(body: string) | OpenEscape(body: string)

  predicate NoLetters(s: string) {
    forall i :: 0 <= i < |s| ==> !IsLetter(s[i])
  }

  function Units(s: string): seq<Unit>
    decreases |s|
  {
    if s == "" then []
    else if s[0] != ESC then [Column(s[0])] + Units(s[1..])
    else
      var n := EscapeLength(s[1..]);
      var body := s[1..1 + n];
      if n > 0 && IsLetter(body[n - 1]) then [Escape(body)] + Units(s[1 + n..])
      else [OpenEscape(body)]
  }

  function UnitText(u: Unit): string {
    match u
    case Column(c) => [c]
    case Escape(body) => [ESC] + body
    case OpenEscape(body) => [ESC] + body
  }

  function UnitsText(units: seq<Unit>): string {
    if units == [] then "" else UnitText(units[0]) + UnitsText(units[1..])
  }

  function Columns(units: seq<Unit>): nat {
    if units == [] then 0 else (if units[0].Column? then 1 else 0) + Columns(units[1..])
  }

  /** No escape is left open at the end. */
  predicate Terminated(s: string) {
    forall u | u in Units(s) :: !u.OpenEscape?
  }

  /** The shortest run of whole units that shows `width` columns, or all of them. */
  function TakeColumns(units: seq<Unit>, width: nat): seq<Unit> {
    if width == 0 || units == [] then []
    else [units[0]] + TakeColumns(units[1..], if units[0].Column? then width - 1 else width)
  }

  // ----- The code -----

  /** Runs the scan behind an escape character to the end of the escape. */
  method SkipEscape(s: string, start: nat) returns (end: nat)
    requires start <= |s|
    ensures start <= end <= |s| && end - start == EscapeLength(s[start..])
  {
    end := start;
    while end < |s|
      invariant start <= end <= |s|
      invariant EscapeLength(s[start..]) == end - start + EscapeLength(s[end..])
    {
      var e := s[end];
      assert s[end..][1..] == s[end + 1..];
      end := end + 1;
      if IsLetter(e) {
        return;
      }
    }
  }

  /** `visible_len`. */
  method VisibleLen(s: string) returns (len: nat)
    ensures len == Columns(Units(s))
  {
    hide Units, EscapeLength;
    len := 0;
    var i := 0;
    assert s[0..] == s;
    while i < |s|
      invariant 0 <= i <= |s|
      invariant Columns(Units(s)) == len + Columns(Units(s[i..]))
    {
      FirstUnit(s, i);
      FirstColumn(Units(s[i..]));
      if s[i] == ESC {
        i := SkipEscape(s, i + 1);
      } else {
        len := len + 1;
        i := i + 1;
      }
    }
    assert s[|s|..] == "";
    NoUnits();
  }

  /** `truncate_to_visible`: whole units only, as many columns as fit. */
  method TruncateToVisible(s: string, width: nat) returns (out: string)
    ensures out == UnitsText(TakeColumns(Units(s), width))
  {
    hide Units, EscapeLength, TakeColumns, UnitsText;
    out := "";
    var vis := 0;
    var i := 0;
    assert s[0..] == s && forall t: string :: "" + t == t;
    while vis < width && i < |s|
      invariant 0 <= i <= |s| && vis <= width
      invariant out + UnitsText(TakeColumns(Units(s[i..]), width - vis)) == UnitsText(TakeColumns(Units(s), width))
    {
      FirstUnit(s, i);
      ghost var rest := Units(s[i..]);
      TakeFirst(rest, width - vis);
      if s[i] == ESC {
        var end := SkipEscape(s, i + 1);
        assert s[i..end] == [ESC] + s[i + 1..end];
        assert rest[1..] == Units(s[end..]);
        Assoc(out, s[i..end], UnitsText(TakeColumns(rest[1..], width - vis)));
        out := out + s[i..end];
        i := end;
      } else {
        assert rest[1..] == Units(s[i + 1..]);
        Assoc(out, [s[i]], UnitsText(TakeColumns(rest[1..], width - vis - 1)));
        out := out + [s[i]];
        vis := vis + 1;
        i := i + 1;
      }
    }
    assert s[|s|..] == "";
    NoUnits();
    NothingTaken(Units(s[i..]), width - vis);
    assert out + "" == out;
  }

  lemma NoUnits()
    ensures Units("") == [] && Columns([]) == 0
  {
  }

  lemma FirstColumn(units: seq<Unit>)
    requires units != []
    ensures Columns(units) == (if units[0].Column? then 1 else 0) + Columns(units[1..])
  {
  }

  lemma NothingTaken(units: seq<Unit>, width: nat)
    requires width == 0 || units == []
    ensures UnitsText(TakeColumns(units, width)) == ""
  {
  }

  const RESET: string := [ESC] + "[0m"

  function Spaces(n: nat): string {
    seq(n, _ => ' ')
  }

  /** `fit_terminal`; an unknown or zero width leaves the line alone. */
  method FitTerminal(line: string, color: bool, width: Option<nat>) returns (out: string)
    ensures width.None? || width.value == 0 ==> out == line
    ensures width.Some? && width.value > 0 ==> out == Fitted(line, color, width.value)
  {
    if width.None? || width.value == 0 {
      return line;
    }
    var vis := VisibleLen(line);
    if vis > width.value {
      out := TruncateToVisible(line, width.value);
      if color {
        out := out + RESET;
      }
      return;
    }
    out := line;
    if color {
      out := out + RESET;
    }
    out := out + Spaces(width.value - vis);
  }

  function Fitted(line: string, color: bool, width: nat): string {
    var vis := Columns(Units(line));
    var tail := if color then RESET else "";
    if vis > width then UnitsText(TakeColumns(Units(line), width)) + tail
    else line + tail + Spaces(width - vis)
  }

  // ----- Units -----

  /** The scan at `i` passes exactly the first unit of the rest. */
  lemma FirstUnit(s: string, i: nat)
    requires i < |s|
    ensures Units(s[i..]) != []
    ensures s[i] != ESC ==> Units(s[i..]) == [Column(s[i])] + Units(s[i + 1..])
    ensures s[i] == ESC ==>
              var end := i + 1 + EscapeLength(s[i + 1..]);
              && end <= |s|
              && !Units(s[i..])[0].Column? && Units(s[i..])[0].body == s[i + 1..end]
              && Units(s[i..]) == [Units(s[i..])[0]] + Units(s[end..])
  {
    var t := s[i..];
    assert t[1..] == s[i + 1..];
    if s[i] == ESC {
      var n := EscapeLength(t[1..]);
      assert t[1..1 + n] == s[i + 1..i + 1 + n];
      assert t[1 + n..] == s[i + 1 + n..];
      OpenOnlyAtEnd(t[1..]);
    }
  }

  lemma {:induction false} OpenOnlyAtEnd(s: string)
    ensures (EscapeLength(s) > 0 && IsLetter(s[EscapeLength(s) - 1])) || (EscapeLength(s) == |s| && NoLetters(s))
  {
    if s != "" && !IsLetter(s[0]) {
      OpenOnlyAtEnd(s[1..]);
    }
  }

  lemma TakeFirst(units: seq<Unit>, width: nat)
    requires units != [] && width > 0
    ensures UnitsText(TakeColumns(units, width))
         == UnitText(units[0]) + UnitsText(TakeColumns(units[1..], if units[0].Column? then width - 1 else width))
  {
    var rest := TakeColumns(units[1..], if units[0].Column? then width - 1 else width);
    assert ([units[0]] + rest)[1..] == rest;
  }

  /** A line is the text of its units. */
  lemma {:induction false} UnitsAreTheLine(s: string)
    ensures UnitsText(Units(s)) == s
    decreases |s|
  {
    hide Units, EscapeLength;
    NoUnits();
    if s != "" {
      FirstUnit(s, 0);
      assert s[0..] == s;
      var units := Units(s);
      var end := if s[0] == ESC then 1 + EscapeLength(s[1..]) else 1;
      UnitsAreTheLine(s[end..]);
      assert units[1..] == Units(s[end..]);
      assert UnitText(units[0]) == s[..end];
      assert s[..end] + s[end..] == s;
    }
  }

  lemma {:induction false} TakenIsPrefix(units: seq<Unit>, width: nat)
    ensures TakeColumns(units, width) <= units
    ensures UnitsText(TakeColumns(units, width)) <= UnitsText(units)
  {
    if width > 0 && units != [] {
      TakenIsPrefix(units[1..], if units[0].Column? then width - 1 else width);
      TakeFirst(units, width);
    }
  }

  lemma {:induction false} TakenColumns(units: seq<Unit>, width: nat)
    ensures Columns(TakeColumns(units, width)) == if Columns(units) <= width then Columns(units) else width
  {
    if width > 0 && units != [] {
      var next := if units[0].Column? then width - 1 else width;
      TakenColumns(units[1..], next);
      assert TakeColumns(units, width)[1..] == TakeColumns(units[1..], next);
    }
  }

  lemma {:induction false} ColumnsConcat(a: seq<Unit>, b: seq<Unit>)
    ensures Columns(a + b) == Columns(a) + Columns(b)
  {
    if a == [] {
      assert a + b == b;
    } else {
      ColumnsConcat(a[1..], b);
      assert (a + b)[1..] == a[1..] + b;
    }
  }

  // ----- Putting lines together -----

  /** Units that a line can consist of: an open escape only at the end, and escapes that end at their
      first letter. */
  predicate Proper(u: Unit) {
    match u
    case Column(c) => c != ESC
    case Escape(body) => body != "" && EscapeLength(body) == |body| && IsLetter(body[|body| - 1])
    case OpenEscape(_) => false
  }

  lemma {:induction false} EscapeLengthAppend(body: string, rest: string)
    requires body != "" && EscapeLength(body) == |body| && IsLetter(body[|body| - 1])
    ensures EscapeLength(body + rest) == |body|
  {
    assert (body + rest)[1..] == body[1..] + rest;
    if !IsLetter(body[0]) {
      EscapeLengthAppend(body[1..], rest);
    }
  }

  lemma UnitStep(u: Unit, tail: string)
    requires Proper(u)
    ensures Units(UnitText(u) + tail) == [u] + Units(tail)
  {
    hide EscapeLength;
    var s := UnitText(u) + tail;
    if u.Column? {
      assert s[1..] == tail;
    } else {
      assert s[1..] == u.body + tail;
      EscapeLengthAppend(u.body, tail);
      assert s[1..1 + |u.body|] == u.body && s[1 + |u.body|..] == tail;
    }
  }

  /** Behind whole units the rest of a line is read on its own. */
  lemma {:induction false} UnitsBehind(units: seq<Unit>, rest: string)
    requires forall u | u in units :: Proper(u)
    ensures Units(UnitsText(units) + rest) == units + Units(rest)
  {
    hide Units, UnitText, Proper;
    if units == [] {
      assert UnitsText(units) + rest == rest;
    } else {
      var u := units[0];
      assert u in units;
      Assoc(UnitText(u), UnitsText(units[1..]), rest);
      UnitsBehind(units[1..], rest);
      UnitStep(u, UnitsText(units[1..]) + rest);
      assert [u] + units[1..] == units;
      Assoc([u], units[1..], Units(rest));
    }
  }

  lemma {:induction false} EscapeLengthOfPrefix(s: string)
    ensures EscapeLength(s[..EscapeLength(s)]) == EscapeLength(s)
  {
    if s != "" && !IsLetter(s[0]) {
      EscapeLengthOfPrefix(s[1..]);
      assert s[..EscapeLength(s)][1..] == s[1..][..EscapeLength(s[1..])];
    }
  }

  /** Every unit of a line is proper, except an open escape at its end. */
  lemma {:induction false} UnitsAreProper(s: string)
    ensures forall i :: 0 <= i < |Units(s)| ==>
              Proper(Units(s)[i])
              || (Units(s)[i].OpenEscape? && i == |Units(s)| - 1 && NoLetters(Units(s)[i].body))
    decreases |s|
  {
    if s != "" {
      if s[0] == ESC {
        EscapeLengthOfPrefix(s[1..]);
        OpenOnlyAtEnd(s[1..]);
        assert s[1..1 + EscapeLength(s[1..])] == s[1..][..EscapeLength(s[1..])];
        assert s[1..][..|s| - 1] == s[1..];
        UnitsAreProper(s[1 + EscapeLength(s[1..])..]);
      } else {
        UnitsAreProper(s[1..]);
      }
    }
  }

  lemma {:induction false} SpacesAreColumns(n: nat)
    ensures Columns(Units(Spaces(n))) == n
  {
    if n > 0 {
      SpacesAreColumns(n - 1);
      assert Spaces(n)[1..] == Spaces(n - 1);
    }
  }

  lemma ResetIsOneEscape()
    ensures Proper(Escape("[0m")) && UnitText(Escape("[0m")) == RESET
  {
    assert "[0m"[1..] == "0m" && "0m"[1..] == "m";
    assert EscapeLength("m") == 1 && EscapeLength("0m") == 2 && EscapeLength("[0m") == 3;
  }

  // ----- Main results -----

  /** Truncation gives a prefix made of whole units, with the smaller of the width and the line's
      columns. */
  lemma {:induction false} TruncationIsExact(line: string, width: nat)
    ensures var out := UnitsText(TakeColumns(Units(line), width));
            && out <= line
            && Units(out) == TakeColumns(Units(line), width) <= Units(line)
            && Columns(Units(out)) == (if Columns(Units(line)) <= width then Columns(Units(line)) else width)
  {
    TakenIsPrefix(Units(line), width);
    UnitsAreTheLine(line);
    TakenColumns(Units(line), width);
    UnitsAreProper(line);
    TakenUnits(line, width);
  }

  lemma TakenUnits(line: string, width: nat)
    ensures Units(UnitsText(TakeColumns(Units(line), width))) == TakeColumns(Units(line), width)
  {
    var units, taken := Units(line), TakeColumns(Units(line), width);
    TakenIsPrefix(units, width);
    UnitsAreProper(line);
    if |taken| == |units| {
      assert taken == units;
      UnitsAreTheLine(line);
    } else {
      forall u | u in taken ensures Proper(u) {
        var i :| 0 <= i < |taken| && taken[i] == u;
        assert units[i] == u;
      }
      UnitsBehind(taken, "");
      assert UnitsText(taken) + "" == UnitsText(taken) && taken + Units("") == taken;
    }
  }

  lemma {:induction false} LetterlessEscape(body: string, rest: string)
    requires NoLetters(body)
    ensures EscapeLength(body + rest) == |body| + EscapeLength(rest)
  {
    if body == "" {
      assert body + rest == rest;
    } else {
      LetterlessEscape(body[1..], rest);
      assert (body + rest)[1..] == body[1..] + rest;
    }
  }

  lemma {:induction false} LetterlessLength(s: string)
    requires NoLetters(s)
    ensures EscapeLength(s) == |s|
  {
    if s != "" {
      LetterlessLength(s[1..]);
    }
  }

  /** The units in front of the escape a line is left in, and that escape's characters so far. */
  lemma OpenLine(line: string) returns (closed: seq<Unit>, body: string)
    requires !Terminated(line)
    ensures Units(line) == closed + [OpenEscape(body)]
    ensures (forall u | u in closed :: Proper(u)) && NoLetters(body)
    ensures line == UnitsText(closed) + ([ESC] + body)
    ensures Columns(Units(line)) == Columns(closed)
  {
    var units := Units(line);
    UnitsAreProper(line);
    var u :| u in units && u.OpenEscape?;
    var i :| 0 <= i < |units| && units[i] == u;
    closed, body := units[..i], u.body;
    assert units == closed + [OpenEscape(body)];
    forall v | v in closed ensures Proper(v) {
      var k :| 0 <= k < |closed| && closed[k] == v;
      assert units[k] == v;
    }
    UnitsAreTheLine(line);
    UnitsTextConcat(closed, [OpenEscape(body)]);
    assert UnitsText([OpenEscape(body)]) == [ESC] + body;
    ColumnsConcat(closed, [OpenEscape(body)]);
  }

  lemma {:induction false} UnitsTextConcat(a: seq<Unit>, b: seq<Unit>)
    ensures UnitsText(a + b) == UnitsText(a) + UnitsText(b)
  {
    if a == [] {
      assert a + b == b;
    } else {
      UnitsTextConcat(a[1..], b);
      assert (a + b)[0] == a[0] && (a + b)[1..] == a[1..] + b;
      Assoc(UnitText(a[0]), UnitsText(a[1..]), UnitsText(b));
    }
  }

  /** An open escape swallows padding. */
  lemma PaddingSwallowed(line: string, n: nat)
    requires !Terminated(line)
    ensures Columns(Units(line + Spaces(n))) == Columns(Units(line))
  {
    hide Units, Columns, UnitsText, Proper, Terminated;
    var closed, body := OpenLine(line);
    var longer := body + Spaces(n);
    Assoc(UnitsText(closed), [ESC] + body, Spaces(n));
    Assoc([ESC], body, Spaces(n));
    UnitsBehind(closed, [ESC] + longer);
    assert NoLetters(longer);
    SwallowedLine(longer);
    ColumnsConcat(closed, Units([ESC] + longer));
  }

  /** A reset closes it. */
  lemma ResetCloses(line: string, n: nat)
    requires !Terminated(line)
    ensures Columns(Units(line + RESET + Spaces(n))) == Columns(Units(line)) + n
  {
    hide Units, Columns, UnitsText, Proper, Terminated, Spaces;
    var closed, body := OpenLine(line);
    var u := Escape(body + RESET);
    ClosedByReset(body);
    Assoc(UnitsText(closed), [ESC] + body, RESET);
    Assoc([ESC], body, RESET);
    Assoc(UnitsText(closed), UnitText(u), Spaces(n));
    UnitsBehind(closed, UnitText(u) + Spaces(n));
    UnitStep(u, Spaces(n));
    SpacesAreColumns(n);
    ColumnsConcat(closed, [u] + Units(Spaces(n)));
    FirstColumn([u] + Units(Spaces(n)));
    assert ([u] + Units(Spaces(n)))[1..] == Units(Spaces(n));
  }

  lemma SwallowedLine(body: string)
    requires NoLetters(body)
    ensures Columns(Units([ESC] + body)) == 0
  {
    LetterlessLength(body);
    var s := [ESC] + body;
    assert s[1..] == body && s[1..1 + |body|] == body;
    assert Units(s) == [OpenEscape(body)];
  }

  lemma ClosedByReset(body: string)
    requires NoLetters(body)
    ensures Proper(Escape(body + RESET))
  {
    LetterlessEscape(body, RESET);
    ResetIsOneEscape();
    assert RESET[1..] == "[0m" && !IsLetter(ESC);
    assert EscapeLength(RESET) == 1 + EscapeLength("[0m");
  }

  lemma ColumnsOfClosed(units: seq<Unit>, n: nat)
    requires forall u | u in units :: Proper(u)
    ensures Columns(Units(UnitsText(units) + Spaces(n))) == Columns(units) + n
    ensures Columns(Units(UnitsText(units) + RESET + Spaces(n))) == Columns(units) + n
  {
    SpacesAreColumns(n);
    UnitsBehind(units, Spaces(n));
    ColumnsConcat(units, Units(Spaces(n)));
    ResetIsOneEscape();
    var more := units + [Escape("[0m")];
    UnitsTextConcat(units, [Escape("[0m")]);
    assert UnitsText([Escape("[0m")]) == RESET;
    forall u | u in more ensures Proper(u) {
      assert u in units || u == Escape("[0m");
    }
    UnitsBehind(more, Spaces(n));
    ColumnsConcat(units, [Escape("[0m")]);
    ColumnsConcat(more, Units(Spaces(n)));
  }

  lemma ProperWhenTerminated(line: string)
    requires Terminated(line)
    ensures forall u | u in Units(line) :: Proper(u)
  {
    UnitsAreProper(line);
    forall u | u in Units(line) ensures Proper(u) {
      var i :| 0 <= i < |Units(line)| && Units(line)[i] == u;
    }
  }

  lemma ProperWhenTaken(line: string, width: nat)
    requires Columns(Units(line)) > width
    ensures forall u | u in TakeColumns(Units(line), width) :: Proper(u)
  {
    var units, taken := Units(line), TakeColumns(Units(line), width);
    TakenIsPrefix(units, width);
    TakenColumns(units, width);
    UnitsAreProper(line);
    assert taken != units;
    forall u | u in taken ensures Proper(u) {
      var i :| 0 <= i < |taken| && taken[i] == u;
      assert units[i] == u;
    }
  }

  /** A fitted line fills the width exactly, unless the line is left inside an escape, is narrower
      than the width and is not followed by a colour reset: then the padding is lost to the escape. */
  lemma FittedExactly(line: string, color: bool, width: nat)
    ensures Columns(Units(Fitted(line, color, width))) == width
       <==> color || Terminated(line) || Columns(Units(line)) >= width
  {
    hide Units, Columns, UnitsText, TakeColumns, Spaces, Proper, Terminated;
    var vis := Columns(Units(line));
    if vis > width {
      var taken := TakeColumns(Units(line), width);
      ProperWhenTaken(line, width);
      TakenColumns(Units(line), width);
      ColumnsOfClosed(taken, 0);
      NoSpaces();
      assert UnitsText(taken) + "" == UnitsText(taken) && UnitsText(taken) + RESET + "" == UnitsText(taken) + RESET;
    } else {
      assert line + "" == line;
      if Terminated(line) {
        ProperWhenTerminated(line);
        UnitsAreTheLine(line);
        ColumnsOfClosed(Units(line), width - vis);
      } else {
        PaddingSwallowed(line, width - vis);
        ResetCloses(line, width - vis);
      }
    }
  }

  lemma NoSpaces()
    ensures Spaces(0) == ""
  {
  }

  // ----- What a line shows -----

  predicate AsciiLetter(c: char) {
    0x41 <= c as int <= 0x5A || 0x61 <= c as int <= 0x7A
  }

  /** Without escapes every character is a column. */
  lemma {:induction false} PlainLine(s: string)
    requires forall i :: 0 <= i < |s| ==> s[i] as int != 0x1B
    ensures Terminated(s) && Columns(Units(s)) == |s|
  {
    if s != "" {
      PlainLine(s[1..]);
    }
  }

  /** An escape, up to and with its first letter, shows nothing, and what follows it shows what it would
      on its own. An escape without a letter runs to the end of the line. */
  lemma EscapeShowsNothing(before: string, body: string, letter: char, after: string)
    requires Terminated(before) && AsciiLetter(letter) && forall i :: 0 <= i < |body| ==> !AsciiLetter(body[i])
    ensures Columns(Units(before + ([ESC] + (body + [letter])) + after))
         == Columns(Units(before)) + Columns(Units(after))
    ensures Columns(Units(before + ([ESC] + body))) == Columns(Units(before))
    ensures ESC as int == 0x1B
  {
    hide Units, Columns, UnitsText, Proper, Terminated;
    assert forall c :: AsciiLetter(c) <==> IsLetter(c);
    var u := Escape(body + [letter]);
    ClosedByLetter(body, letter);
    ProperWhenTerminated(before);
    UnitsAreTheLine(before);
    UnitsBehind(Units(before), UnitText(u) + after);
    UnitStep(u, after);
    Assoc(before, UnitText(u), after);
    ColumnsConcat(Units(before), [u] + Units(after));
    FirstColumn([u] + Units(after));
    assert ([u] + Units(after))[1..] == Units(after);
    UnitsBehind(Units(before), [ESC] + body);
    SwallowedLine(body);
    ColumnsConcat(Units(before), Units([ESC] + body));
  }

  lemma ClosedByLetter(body: string, letter: char)
    requires NoLetters(body) && IsLetter(letter)
    ensures Proper(Escape(body + [letter]))
  {
    LetterlessEscape(body, [letter]);
    assert EscapeLength([letter]) == 1;
  }

  /** Truncation takes no more of a line than it needs: any shorter run of its units shows fewer columns. */
  lemma {:induction false} TruncationIsShortest(units: seq<Unit>, width: nat, k: nat)
    requires k < |TakeColumns(units, width)| <= |units|
    ensures Columns(units[..k]) < width
  {
    if k == 0 {
      assert units[..0] == [];
    } else {
      var next := if units[0].Column? then width - 1 else width;
      TakenIsPrefix(units[1..], next);
      TruncationIsShortest(units[1..], next, k - 1);
      assert units[..k] == [units[0]] + units[1..][..k - 1];
      FirstColumn([units[0]] + units[1..][..k - 1]);
      assert ([units[0]] + units[1..][..k - 1])[1..] == units[1..][..k - 1];
    }
  }

  /** A fitted line begins with the line, or with its truncation when it is too wide; all it adds is a
      colour reset and, behind a line that is too narrow, blanks. */
  lemma FittedKeepsLine(line: string, color: bool, width: nat)
    ensures var out := Fitted(line, color, width);
            var columns := Columns(Units(line));
            var shown := if columns > width then UnitsText(TakeColumns(Units(line), width)) else line;
            var reset := if color then "\U{1b}[0m" else "";
            && shown <= line
            && |out| == |shown| + |reset| + (if columns < width then width - columns else 0)
            && shown + reset <= out
            && forall i :: |shown| + |reset| <= i < |out| ==> out[i] == ' '
  {
    hide Units, Columns, UnitsText, TakeColumns;
    TruncationIsExact(line, width);
    assert RESET == "\U{1b}[0m";
  }
}
