/** Reading a JSON array, by section 5 of RFC 8259, and the proof that what `flx find` writes is one. */
module JsonReading {
  import opened Wrappers
  import opened JsonDocument
  import Net
  import Text

  // ----- The reader -----

  predicate IsWs(c: char) {
    c == ' ' || c == '\t' || c == '\n' || c == '\r'
  }

  function SkipWs(s: string): (rest: string)
    ensures |rest| <= |s|
  {
    if s != "" && IsWs(s[0]) then SkipWs(s[1..]) else s
  }

  /** One or more values with commas between them, and the closing bracket. `value` reads one value: it
      gives the length of the value a text begins with. */
  function ReadValues(s: string, value: string -> Option<nat>): Option<(seq<string>, string)>
    decreases |s|
  {
    var n :- value(s);
    if n == 0 || n > |s| then None
    else
      var rest := SkipWs(s[n..]);
      if rest == "" then None
      else if rest[0] == ']' then Some(([s[..n]], rest[1..]))
      else if rest[0] != ',' then None
      else
        var (more, end) :- ReadValues(SkipWs(rest[1..]), value);
        Some(([s[..n]] + more, end))
  }

  /** `begin-array [ value *( value-separator value ) ] end-array`, with white space around it. */
  function ReadArray(s: string, value: string -> Option<nat>): Option<seq<string>> {
    var t := SkipWs(s);
    if t == "" || t[0] != '[' then None
    else
      var u := SkipWs(t[1..]);
      if u != "" && u[0] == ']' then
        if SkipWs(u[1..]) == "" then Some([]) else None
      else
        var (values, rest) :- ReadValues(u, value);
        if SkipWs(rest) == "" then Some(values) else None
  }

  /** What may follow a value. */
  predicate Delimited(rest: string) {
    rest == "" || rest[0] == ',' || rest[0] == ']' || IsWs(rest[0])
  }

  /** `text` is a value the reader reads whole, whatever follows it. */
  ghost predicate IsValue(text: string, value: string -> Option<nat>) {
    && text != "" && !IsWs(text[0]) && text[0] != ']'
    && forall rest: string :: Delimited(rest) ==> value(text + rest) == Some(|text|)
  }

  ghost predicate AreValues(texts: seq<string>, value: string -> Option<nat>) {
    forall i :: 0 <= i < |texts| ==> IsValue(texts[i], value)
  }

  // ----- Documents are arrays -----

  /** Each value on a line of its own, two spaces in. */
  function Indents(values: seq<string>): seq<string> {
    seq(|values|, i requires 0 <= i < |values| => "  " + values[i])
  }

  lemma SkipNothing(text: string, rest: string)
    requires text != "" && !IsWs(text[0])
    ensures SkipWs(text + rest) == text + rest
  {
  }

  lemma SkipIndent(text: string)
    ensures SkipWs("\n" + "  " + text) == SkipWs(text)
  {
    var s := "\n" + "  " + text;
    assert s[0] == '\n' && s[1..] == "  " + text;
    assert s[1..][0] == ' ' && s[1..][1..] == " " + text;
    assert s[1..][1..][0] == ' ' && s[1..][1..][1..] == text;
    assert SkipWs(s) == SkipWs(s[1..]) == SkipWs(s[1..][1..]) == SkipWs(s[1..][1..][1..]);
  }

  lemma CloserReads()
    ensures SkipWs(CLOSER) == "]\n" && SkipWs("\n") == "" && Delimited(CLOSER)
  {
    assert CLOSER[1..] == "]\n" && "\n"[1..] == "";
  }

  lemma SeparatorReads(text: string, rest: string)
    requires text != "" && !IsWs(text[0])
    ensures var s := SEPARATOR + ("  " + text) + rest;
            && SkipWs(s) == s && s[0] == ',' && Delimited(s)
            && SkipWs(s[1..]) == text + rest
  {
    var s := SEPARATOR + ("  " + text) + rest;
    assert s[1..] == "\n" + "  " + (text + rest);
    SkipIndent(text + rest);
    SkipNothing(text, rest);
  }

  lemma ReadOne(text: string, rest: string, value: string -> Option<nat>)
    requires IsValue(text, value) && Delimited(rest)
    ensures value(text + rest) == Some(|text|) && text != ""
    ensures (text + rest)[..|text|] == text && (text + rest)[|text|..] == rest
  {
  }

  lemma {:induction false} ReadsTail(first: string, others: seq<string>, value: string -> Option<nat>)
    requires IsValue(first, value) && AreValues(others, value)
    ensures ReadValues(first + Tail(Indents(others)), value) == Some(([first] + others, "\n"))
    decreases |others|
  {
    hide IsValue, SkipWs;
    var rest := Tail(Indents(others));
    if others == [] {
      CloserReads();
      ReadOne(first, rest, value);
      assert "]\n"[1..] == "\n" && [first] + [] == [first];
    } else {
      var next, after := others[0], Tail(Indents(others[1..]));
      assert IsValue(next, value);
      ValueStarts(next, value);
      assert Indents(others)[0] == "  " + next && Indents(others)[1..] == Indents(others[1..]);
      assert rest == SEPARATOR + ("  " + next) + after;
      SeparatorReads(next, after);
      ReadOne(first, rest, value);
      ReadsTail(next, others[1..], value);
      assert [next] + others[1..] == others;
    }
  }

  lemma ValueStarts(text: string, value: string -> Option<nat>)
    requires IsValue(text, value)
    ensures text != "" && !IsWs(text[0]) && text[0] != ']'
  {
  }

  lemma OpenerReads(text: string, rest: string)
    requires text != "" && !IsWs(text[0])
    ensures var s := OPENER + ("  " + text) + rest;
            SkipWs(s) == s && s[0] == '[' && SkipWs(s[1..]) == text + rest
  {
    var s := OPENER + ("  " + text) + rest;
    assert s[1..] == "\n" + "  " + (text + rest);
    SkipIndent(text + rest);
    SkipNothing(text, rest);
  }

  lemma EmptyReads(value: string -> Option<nat>)
    ensures ReadArray(EMPTY_DOCUMENT, value) == Some([])
  {
    assert EMPTY_DOCUMENT[0] == '[' && EMPTY_DOCUMENT[1..] == "]\n" && "]\n"[1..] == "\n" && "\n"[1..] == "";
  }

  /** The one-shot rendering of any list of values is an array that holds exactly these values. */
  lemma DocumentIsArray(values: seq<string>, value: string -> Option<nat>)
    requires AreValues(values, value)
    ensures ReadArray(Document(Indents(values)), value) == Some(values)
  {
    hide IsValue, SkipWs, Opened;
    if values == [] {
      EmptyReads(value);
    } else {
      var first, others := values[0], values[1..];
      ValueStarts(first, value);
      DocumentIs([Indents(values)[0]], Indents(others));
      assert [Indents(values)[0]] + Indents(others) == Indents(values);
      OpenedOne("  " + first);
      var rest := Tail(Indents(others));
      OpenerReads(first, rest);
      ReadsTail(first, others, value);
      CloserReads();
      assert [first] + others == values;
      assert (first + rest)[0] == first[0];
    }
  }

  lemma OpenedOne(text: string)
    ensures Opened([text]) == OPENER + text
  {
  }

  /** The items behind the first, of a document without its end. */
  function OpenTail(rest: seq<string>): string {
    if rest == [] then "" else SEPARATOR + rest[0] + OpenTail(rest[1..])
  }

  lemma {:induction false} OpenedIs(texts: seq<string>, rest: seq<string>)
    requires texts != []
    ensures Opened(texts + rest) == Opened(texts) + OpenTail(rest)
    decreases |rest|
  {
    hide Opened;
    if rest == [] {
      assert texts + rest == texts && Opened(texts) + "" == Opened(texts);
    } else {
      OpenedIs(texts + [rest[0]], rest[1..]);
      OpenedSnoc(texts, rest[0]);
      assert texts + [rest[0]] + rest[1..] == texts + rest;
      Assoc(Opened(texts), SEPARATOR + rest[0], OpenTail(rest[1..]));
    }
  }

  lemma {:induction false} OpenTailFails(first: string, others: seq<string>, value: string -> Option<nat>)
    requires IsValue(first, value) && AreValues(others, value)
    ensures ReadValues(first + OpenTail(Indents(others)), value) == None
    decreases |others|
  {
    hide IsValue, SkipWs;
    var rest := OpenTail(Indents(others));
    if others == [] {
      ReadOne(first, rest, value);
      NothingSkipped();
    } else {
      var next, after := others[0], OpenTail(Indents(others[1..]));
      assert IsValue(next, value);
      ValueStarts(next, value);
      assert Indents(others)[0] == "  " + next && Indents(others)[1..] == Indents(others[1..]);
      assert rest == SEPARATOR + ("  " + next) + after;
      SeparatorReads(next, after);
      ReadOne(first, rest, value);
      OpenTailFails(next, others[1..], value);
    }
  }

  lemma NothingSkipped()
    ensures SkipWs("") == ""
  {
  }

  /** A document left open is no array. */
  lemma OpenIsNoArray(values: seq<string>, value: string -> Option<nat>)
    requires AreValues(values, value)
    ensures ReadArray(Opened(Indents(values)), value) == None
  {
    hide IsValue, SkipWs, Opened;
    if values == [] {
      NothingOpened();
      NothingSkipped();
      assert Indents(values) == [];
    } else {
      var first, others := values[0], values[1..];
      ValueStarts(first, value);
      OpenedIs([Indents(values)[0]], Indents(others));
      assert [Indents(values)[0]] + Indents(others) == Indents(values);
      OpenedOne("  " + first);
      OpenerReads(first, OpenTail(Indents(others)));
      OpenTailFails(first, others, value);
      assert (first + OpenTail(Indents(others)))[0] == first[0];
    }
  }

  // ----- Items -----

  /** The compact renderings of the items that do not fail. */
  function Compacts(items: seq<Item>): seq<string> {
    if items == [] then []
    else
      var last := items[|items| - 1].compact;
      Compacts(items[..|items| - 1]) + (if last.Some? then [last.value] else [])
  }

  lemma {:induction false} CompactTexts(items: seq<Item>)
    ensures Texts(Json, items) == Indents(Compacts(items))
  {
    if items != [] {
      CompactTexts(items[..|items| - 1]);
    }
  }

  /** The lines of a pretty rendering, each two spaces in. */
  lemma {:induction false} IndentedLines(lines: seq<string>)
    requires lines != [] && forall i :: 0 <= i < |lines| ==> Net.Lacks(lines[i], '\n')
    ensures Text.SplitOn(Indented(lines), "\n") == Indents(lines)
  {
    if |lines| == 1 {
      Net.SplitWithout("  " + lines[0], '\n');
      assert Indents(lines) == ["  " + lines[0]];
    } else {
      IndentedLines(lines[1..]);
      Net.SplitAtFirst("  " + lines[0], '\n', Indented(lines[1..]));
      assert Indents(lines) == ["  " + lines[0]] + Indents(lines[1..]);
    }
  }

  // ----- Runs -----

  /** What a run leaves in its output file. */
  function Content(run: Run): string {
    if run.LeftOpen() then Opened(run.AllTexts()) else Document(run.AllTexts())
  }

  /** A run that writes values leaves an array of exactly these values in its file, unless it leaves the
      array open, and then no array. */
  lemma RunLeavesArray(run: Run, values: seq<string>, value: string -> Option<nat>)
    requires run.AllTexts() == Indents(values) && AreValues(values, value)
    ensures ReadArray(Content(run), value) == if run.LeftOpen() then None else Some(values)
  {
    hide ReadArray, Document, Opened, AreValues;
    DocumentIsArray(values, value);
    OpenIsNoArray(values, value);
  }

  /** The values a compact run writes: the renderings of its passes' items that do not fail, as many of
      each pass as its limit allows. */
  function CompactValues(run: Run): seq<string> {
    Take(Compacts(Seen(run.first, run.FirstCancel())), run.limit)
    + (if run.Second() then Take(Compacts(Seen(run.second, run.SecondCancel())), run.Limit2()) else [])
  }

  lemma TakeIndents(values: seq<string>, limit: nat)
    ensures Take(Indents(values), limit) == Indents(Take(values, limit))
  {
  }

  /** A compact run leaves an array of exactly these renderings, unless it leaves the array open. */
  lemma CompactRunLeavesArray(run: Run, value: string -> Option<nat>)
    requires run.format.Json? && AreValues(CompactValues(run), value)
    ensures ReadArray(Content(run), value) == if run.LeftOpen() then None else Some(CompactValues(run))
  {
    hide ReadArray, Document, Opened, IsValue, Texts, Compacts, Take;
    var first, second := Seen(run.first, run.FirstCancel()), Seen(run.second, run.SecondCancel());
    CompactTexts(first);
    CompactTexts(second);
    TakeIndents(Compacts(first), run.limit);
    TakeIndents(Compacts(second), run.Limit2());
    assert run.AllTexts() == Indents(CompactValues(run));
    RunLeavesArray(run, CompactValues(run), value);
  }
}
