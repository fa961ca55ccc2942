/** The JSON document `flx find` writes, `src/cli/output.rs`, and the hand-off of one document from
    the first pass to the second, `src/cli/main.rs`. */
module JsonDocument {
  import opened Wrappers

  datatype Format = Json | PrettyJson

  /** An item as the serialiser renders it: compactly, unless it fails, and as the lines of the
      pretty form, of which there are none when it fails. */
  datatype Item = Item(compact: Option<string>, pretty: seq<string>)

  const OPENER := "[\n"
  const SEPARATOR := ",\n"
  const CLOSER := "\n]\n"
  const EMPTY_DOCUMENT := "[]\n"

  // ----- The one-shot rendering -----

  function Indented(lines: seq<string>): string {
    if lines == [] then ""
    else if |lines| == 1 then "  " + lines[0]
    else "  " + lines[0] + "\n" + Indented(lines[1..])
  }

  /** What an item puts into the array, if anything: a compact item that fails is left out, a pretty
      item that fails is an empty text. */
  function ItemText(format: Format, item: Item): Option<string> {
    match format
    case Json => if item.compact.Some? then Some("  " + item.compact.value) else None
    case PrettyJson => Some(Indented(item.pretty))
  }

  function Texts(format: Format, items: seq<Item>): seq<string> {
    if items == [] then []
    else
      var last := ItemText(format, items[|items| - 1]);
      Texts(format, items[..|items| - 1]) + (if last.Some? then [last.value] else [])
  }

  function Take(texts: seq<string>, limit: nat): seq<string> {
    if limit == 0 || |texts| <= limit then texts else texts[..limit]
  }

  function Separated(texts: seq<string>): string {
    if texts == [] then ""
    else if |texts| == 1 then texts[0]
    else Separated(texts[..|texts| - 1]) + SEPARATOR + texts[|texts| - 1]
  }

  /** One array holding `texts`. */
  function Document(texts: seq<string>): string {
    if texts == [] then EMPTY_DOCUMENT else OPENER + Separated(texts) + CLOSER
  }

  // ----- Writing in pieces -----

  /** The items of a document so far, without the end. */
  function Opened(texts: seq<string>): string {
    if texts == [] then "" else OPENER + Separated(texts)
  }

  /** What sets the next item off. */
  function Start(texts: seq<string>): string {
    if texts == [] then OPENER else SEPARATOR
  }

  /** How a pass leaves the document. */
  function Ended(texts: seq<string>, closeDocument: bool, suppressEmpty: bool): string {
    if !closeDocument || (texts == [] && suppressEmpty) then Opened(texts) else Document(texts)
  }

  class JsonDoc {
    var items: nat

    constructor ()
      ensures items == 0
    {
      items := 0;
    }

    method Add(count: nat)
      modifies this
      ensures items == old(items) + count
    {
      items := items + count;
    }
  }

  /** An output file, or standard output. */
  class Output {
    const isFile: bool
    var content: string

    constructor (isFile: bool, content: string)
      ensures this.isFile == isFile && this.content == content
    {
      this.isFile := isFile;
      this.content := content;
    }

    method Open(append: bool)
      modifies this
      ensures content == if isFile && !append then "" else old(content)
    {
      if isFile && !append {
        content := "";
      }
    }

    method Write(text: string)
      modifies this
      ensures content == old(content) + text
    {
      content := content + text;
    }
  }

  /** `write_json_item` and its inlined pretty twin: an item opens the array or is set off from the one
      before it; an item that fails leaves the buffer alone. */
  method WriteItem(format: Format, itemCount: nat, item: Item) returns (emitted: bool, buf: string)
    ensures emitted <==> ItemText(format, item).Some?
    ensures buf == if emitted then (if itemCount == 0 then OPENER else SEPARATOR) + ItemText(format, item).value else ""
  {
    buf := "";
    match format {
      case Json =>
        if item.compact.None? {
          return false, "";
        }
        if itemCount == 0 {
          buf := buf + "[\n  ";
        } else {
          buf := buf + ",\n  ";
        }
        assert buf == (if itemCount == 0 then OPENER else SEPARATOR) + "  ";
        Assoc(if itemCount == 0 then OPENER else SEPARATOR, "  ", item.compact.value);
        buf := buf + item.compact.value;
      case PrettyJson =>
        if itemCount == 0 {
          buf := buf + "[\n";
        } else {
          buf := buf + ",\n";
        }
        buf := WriteLines(buf, item.pretty);
    }
    emitted := true;
  }

  /** The lines of a pretty item. */
  method WriteLines(start: string, lines: seq<string>) returns (buf: string)
    ensures buf == start + Indented(lines)
  {
    hide Indented;
    buf := start;
    NothingIndented(start);
    for i := 0 to |lines|
      invariant buf == start + Indented(lines[..i])
    {
      ghost var done, line := Indented(lines[..i]), lines[i];
      IndentedSnoc(lines[..i], line);
      assert lines[..i] + [line] == lines[..i + 1];
      Assoc(start, done, "\n");
      Assoc(start, done + "\n", "  ");
      Assoc(start, done + "\n" + "  ", line);
      Assoc(start, "  ", line);
      if i > 0 {
        buf := buf + "\n";
      }
      buf := buf + "  ";
      buf := buf + lines[i];
    }
    assert lines[..|lines|] == lines;
  }

  lemma NothingIndented(start: string)
    ensures Indented([]) == "" && start + "" == start
  {
  }

  lemma {:induction false} IndentedSnoc(lines: seq<string>, last: string)
    ensures Indented(lines + [last])
         == if lines == [] then "  " + last else Indented(lines) + "\n" + "  " + last
  {
    if |lines| == 1 {
      assert (lines + [last])[1..] == [last];
      assert Indented(lines + [last]) == "  " + lines[0] + "\n" + ("  " + last);
    } else if |lines| > 1 {
      IndentedSnoc(lines[1..], last);
      assert (lines + [last])[1..] == lines[1..] + [last];
      var head, rest := "  " + lines[0] + "\n", Indented(lines[1..]);
      assert head + (rest + "\n" + "  " + last) == head + rest + "\n" + "  " + last;
    }
  }

  /** How a pass ends and whether it continues a document. */
  datatype Chain = Alone | Continued(doc: JsonDoc, leaveOpen: bool)

  /** The items a pass looks at when it is cancelled after `cancelAfter` of them. */
  function Seen(source: seq<Item>, cancelAfter: Option<nat>): seq<Item> {
    if cancelAfter.Some? && cancelAfter.value <= |source| then source[..cancelAfter.value] else source
  }

  /** A pass notices being cancelled unless it reaches its row limit, or the end of its items, before. */
  predicate Interrupted(format: Format, source: seq<Item>, limit: nat, cancelAfter: Option<nat>) {
    && cancelAfter.Some? && cancelAfter.value <= |source|
    && (limit == 0 || |Texts(format, source[..cancelAfter.value])| < limit)
  }

  /** The item loop and the end of `process_result`: `source` is what filters and quotas let through.
      A pass leaves behind the document its predecessor left, with its own items added; if it is
      cancelled, it closes the document. */
  method ProcessResult(out: Output, format: Format, source: seq<Item>, limit: nat, suppressEmpty: bool, chain: Chain,
                       cancelAfter: Option<nat>, ghost prefix: string, ghost before: seq<string>)
    returns (cancelled: bool)
    requires chain.Alone? ==> before == []
    requires chain.Continued? ==> chain.doc.items == |before|
    requires out.isFile && (chain.Alone? || chain.leaveOpen) ==> prefix == "" && before == []
    requires !(out.isFile && (chain.Alone? || chain.leaveOpen)) ==> out.content == prefix + Opened(before)
    modifies out, if chain.Continued? then {chain.doc} else {}
    ensures cancelled <==> Interrupted(format, source, limit, cancelAfter)
    ensures var all := before + Take(Texts(format, Seen(source, cancelAfter)), limit);
            && out.content == prefix + Ended(all, !(chain.Continued? && chain.leaveOpen) || cancelled, suppressEmpty)
            && (chain.Continued? ==> chain.doc.items == |all|)
  {
    hide Texts, Opened, Document, ItemText, Interrupted, Ended, Take;
    NothingOpened();
    out.Open(chain.Continued? && !chain.leaveOpen);
    assert out.content == prefix + Opened(before);
    var itemCount := if chain.Continued? then chain.doc.items else 0;
    var rows := 0;
    ghost var texts: seq<string> := [];
    assert before + [] == before && source[..0] == [];
    TextsOfNone(format);
    var i := 0;
    cancelled := false;
    ghost var seen := Seen(source, cancelAfter);
    while true
      invariant 0 <= i <= |seen|
      invariant texts == Texts(format, source[..i]) && rows == |texts|
      invariant limit == 0 || rows < limit
      invariant itemCount == |before + texts|
      invariant chain.Continued? ==> chain.doc.items == itemCount
      invariant out.content == prefix + Opened(before + texts)
      decreases |source| - i
    {
      if cancelAfter == Some(i) {
        cancelled := true;
        break;
      }
      if i == |source| {
        break;
      }
      var item := source[i];
      TextsSnoc(format, source[..i], item);
      assert source[..i] + [item] == source[..i + 1];
      var emitted, buf := WriteItem(format, itemCount, item);
      if emitted {
        ghost var text := ItemText(format, item).value;
        OpenedSnoc(before + texts, text);
        Assoc(prefix, Opened(before + texts), buf);
        Assoc(before, texts, [text]);
        out.Write(buf);
        texts := texts + [text];
        itemCount := itemCount + 1;
        if chain.Continued? {
          chain.doc.Add(1);
        }
        rows := rows + 1;
      }
      i := i + 1;
      if limit > 0 && rows >= limit {
        break;
      }
    }
    LoopEnd(format, source, limit, cancelAfter, i, cancelled);
    FinalizeJson(out, itemCount, suppressEmpty, !(chain.Continued? && chain.leaveOpen) || cancelled,
                 prefix, before + texts);
  }

  /** Where the item loop ends, in each of its three ways. */
  lemma LoopEnd(format: Format, source: seq<Item>, limit: nat, cancelAfter: Option<nat>, i: nat, cancelled: bool)
    requires i <= |Seen(source, cancelAfter)|
    requires var rows := |Texts(format, source[..i])|;
             || (cancelled && cancelAfter == Some(i) && (limit == 0 || rows < limit))
             || (!cancelled && i == |source| && cancelAfter != Some(i) && (limit == 0 || rows < limit))
             || (!cancelled && rows == limit > 0)
    ensures Texts(format, source[..i]) == Take(Texts(format, Seen(source, cancelAfter)), limit)
    ensures cancelled <==> Interrupted(format, source, limit, cancelAfter)
  {
    hide Texts;
    var seen := Seen(source, cancelAfter);
    TextsPrefix(format, seen, i);
    assert seen[..i] == source[..i] && seen[..|seen|] == seen;
    if cancelled || |Texts(format, source[..i])| < limit || limit == 0 {
      assert source[..i] == seen;
    }
  }

  lemma NothingOpened()
    ensures Opened([]) == "" && forall prefix: string :: prefix + "" == prefix
  {
  }

  lemma TextsOfNone(format: Format)
    ensures Texts(format, []) == []
  {
  }

  /** `finalize_json_output`. */
  method FinalizeJson(out: Output, itemCount: nat, suppressEmpty: bool, closeDocument: bool,
                      ghost prefix: string, ghost texts: seq<string>)
    requires out.content == prefix + Opened(texts) && itemCount == |texts|
    modifies out
    ensures out.content == prefix + Ended(texts, closeDocument, suppressEmpty)
  {
    var close :=
      if !closeDocument then ""
      else if itemCount > 0 then "\n]\n"
      else if suppressEmpty then ""
      else "[]\n";
    out.Write(close);
    Assoc(prefix, Opened(texts), close);
    assert Opened(texts) + "" == Opened(texts);
    assert texts == [] ==> Opened(texts) + close == close;
  }

  /** `close_chained_json`. */
  method CloseChained(out: Output, itemCount: nat, ghost prefix: string, ghost texts: seq<string>)
    requires out.content == prefix + Opened(texts) && itemCount == |texts|
    modifies out
    ensures out.content == prefix + Document(texts)
  {
    var closer := if itemCount > 0 then "\n]\n" else "[]\n";
    out.Open(true);
    out.Write(closer);
    Assoc(prefix, Opened(texts), closer);
    assert texts == [] ==> Opened(texts) + closer == closer;
  }

  // ----- Two passes -----

  /** `needs_fallback`, `src/cli/pipeline.rs`. */
  function NeedsFallback(hasQuotas: bool, hasUnfilled: bool, otherCapacity: bool, mayFallback: bool,
                         limit: nat, emitted: nat, passed: nat): bool {
    if hasQuotas then
      mayFallback && (limit == 0 || emitted < limit) && (emitted == 0 || hasUnfilled || otherCapacity)
    else mayFallback && (passed == 0 || (limit > 0 && passed < limit))
  }

  /** The limit of the second pass. */
  function SecondLimit(hasQuotas: bool, limit: nat, emitted: nat, passed: nat): nat {
    if limit == 0 then 0
    else
      var used := if hasQuotas then emitted else passed;
      if used <= limit then limit - used else 0
  }

  datatype Verdict = Verdict(hasQuotas: bool, hasUnfilled: bool, otherCapacity: bool, passed: nat)

  /** When a run is cancelled: after so many items of a pass, or while the second pass is starting. A
      second pass that fails to start ends a run in the same way. */
  datatype Cancel = Never | InFirst(after: nat) | BeforeSecond | InSecond(after: nat)

  /** Everything a run of `flx find` depends on. */
  datatype Run = Run(format: Format, limit: nat, mayFallback: bool, verdict: Verdict,
                     first: seq<Item>, hasCandidates: bool, second: seq<Item>, cancel: Cancel) {

    function FirstCancel(): Option<nat> {
      if cancel.InFirst? then Some(cancel.after) else None
    }

    function SecondCancel(): Option<nat> {
      if cancel.InSecond? then Some(cancel.after) else None
    }

    function FirstTexts(): seq<string> {
      Take(Texts(format, Seen(first, FirstCancel())), limit)
    }

    function Emitted(): nat {
      if mayFallback then |FirstTexts()| else verdict.passed
    }

    /** A second pass is due. */
    predicate Again() {
      && !Interrupted(format, first, limit, FirstCancel())
      && NeedsFallback(verdict.hasQuotas, verdict.hasUnfilled, verdict.otherCapacity,
                       mayFallback, limit, Emitted(), verdict.passed)
    }

    function Limit2(): nat {
      SecondLimit(verdict.hasQuotas, limit, Emitted(), verdict.passed)
    }

    /** A second pass takes place. */
    predicate Second() {
      Again() && hasCandidates && cancel != BeforeSecond
    }

    function SecondTexts(): seq<string> {
      if Second() then Take(Texts(format, Seen(second, SecondCancel())), Limit2()) else []
    }

    function AllTexts(): seq<string> {
      FirstTexts() + SecondTexts()
    }

    /** The run ends without a word about the end of the document: cancelled while the second pass is
        starting, or in a first pass that has written nothing and may be followed by another. */
    predicate LeftOpen() {
      || (cancel == BeforeSecond && Again() && hasCandidates)
      || (mayFallback && FirstTexts() == [] && Interrupted(format, first, limit, FirstCancel()))
    }
  }

  /** The hand-off in `run_find`. Whichever way a run goes, it leaves one array with the items of both
      passes, unless it is cancelled at one of two moments. */
  method RunFind(out: Output, run: Run)
    modifies out
    ensures out.content == (if out.isFile then "" else old(out.content))
                           + (if run.LeftOpen() then Opened(run.AllTexts()) else Document(run.AllTexts()))
  {
    ghost var prefix := if out.isFile then "" else out.content;
    ghost var firstTexts := run.FirstTexts();
    assert [] + firstTexts == firstTexts && firstTexts + [] == firstTexts;
    assert out.content == out.content + Opened([]);
    var doc := new JsonDoc();
    var chain := if run.mayFallback then Continued(doc, true) else Alone;
    var cancelled := ProcessResult(out, run.format, run.first, run.limit, run.mayFallback, chain,
                                   run.FirstCancel(), prefix, []);
    if cancelled {
      return;
    }
    var verdict := run.verdict;
    var emitted := if run.mayFallback then doc.items else verdict.passed;
    var again := NeedsFallback(verdict.hasQuotas, verdict.hasUnfilled, verdict.otherCapacity,
                               run.mayFallback, run.limit, emitted, verdict.passed);
    if again {
      var limit2 := SecondLimit(verdict.hasQuotas, run.limit, emitted, verdict.passed);
      if !run.hasCandidates {
        CloseChained(out, doc.items, prefix, firstTexts);
        return;
      }
      if run.cancel == BeforeSecond {
        return;
      }
      cancelled := ProcessResult(out, run.format, run.second, limit2, false, Continued(doc, false),
                                 run.SecondCancel(), prefix, firstTexts);
      return;
    }
    if run.mayFallback {
      CloseChained(out, doc.items, prefix, firstTexts);
    }
  }

  /** What is left open is not the document. */
  lemma OpenIsNotClosed(texts: seq<string>)
    ensures Opened(texts) != Document(texts)
  {
    hide Separated;
    if texts != [] {
      assert |Document(texts)| == |Opened(texts)| + |CLOSER|;
    }
  }

  /** A second pass may take what the first has left of the limit, which is something; both together
      stay within the limit as long as no more rows were written than proxies passed. */
  lemma LimitsCompose(verdict: Verdict, mayFallback: bool, limit: nat, emitted: nat)
    requires NeedsFallback(verdict.hasQuotas, verdict.hasUnfilled, verdict.otherCapacity, mayFallback,
                           limit, emitted, verdict.passed)
    ensures var used := if verdict.hasQuotas then emitted else verdict.passed;
            var limit2 := SecondLimit(verdict.hasQuotas, limit, emitted, verdict.passed);
            && (limit == 0 ==> limit2 == 0)
            && (limit > 0 ==> limit2 > 0 && used + limit2 == limit)
    ensures limit > 0 && (verdict.hasQuotas || emitted <= verdict.passed) ==>
              emitted + SecondLimit(verdict.hasQuotas, limit, emitted, verdict.passed) <= limit
  {
  }

  /** Without quotas a second pass is due, where there can be one, when nothing passed or the limit was
      not reached. */
  lemma FallbackWithoutQuotas(limit: nat, emitted: nat, passed: nat, hasUnfilled: bool, otherCapacity: bool)
    ensures NeedsFallback(false, hasUnfilled, otherCapacity, true, limit, emitted, passed)
       <==> passed == 0 || passed < limit
  {
  }

  /** With quotas it is due as long as the limit leaves room and some type can still come: nothing has
      come yet, a quota is not full, or a type has no cap. */
  lemma FallbackWithQuotas(limit: nat, emitted: nat, passed: nat, hasUnfilled: bool, otherCapacity: bool)
    ensures NeedsFallback(true, hasUnfilled, otherCapacity, true, limit, emitted, passed)
       <==> !(limit > 0 && emitted >= limit) && !(emitted > 0 && !hasUnfilled && !otherCapacity)
  {
  }

  /** A run that may not fall back never does. */
  lemma NoFallback(verdict: Verdict, limit: nat, emitted: nat)
    ensures !NeedsFallback(verdict.hasQuotas, verdict.hasUnfilled, verdict.otherCapacity, false,
                           limit, emitted, verdict.passed)
  {
  }

  lemma TakeIs(texts: seq<string>, limit: nat)
    ensures Take(texts, limit) <= texts
    ensures |Take(texts, limit)| == if limit > 0 && limit < |texts| then limit else |texts|
  {
  }

  /** A pass takes as many of its texts as the limit allows and no fewer, and a run stays within it. */
  lemma RunWithinLimit(run: Run)
    requires run.limit > 0 && (run.verdict.hasQuotas ==> run.mayFallback)
    requires !run.verdict.hasQuotas ==> |run.FirstTexts()| <= run.verdict.passed
    ensures |run.AllTexts()| <= run.limit
    ensures |run.FirstTexts()| < run.limit ==>
              run.FirstTexts() == Texts(run.format, Seen(run.first, run.FirstCancel()))
    ensures run.Second() && |run.SecondTexts()| < run.Limit2() ==>
              run.SecondTexts() == Texts(run.format, Seen(run.second, run.SecondCancel()))
  {
    hide Texts, Take;
    var first, second := Texts(run.format, Seen(run.first, run.FirstCancel())),
                         Texts(run.format, Seen(run.second, run.SecondCancel()));
    TakeIs(first, run.limit);
    TakeIs(second, run.Limit2());
    if run.Second() {
      LimitsCompose(run.verdict, run.mayFallback, run.limit, run.Emitted());
    }
  }

  // ----- Pieces of a document -----

  lemma TextsSnoc(format: Format, items: seq<Item>, last: Item)
    ensures Texts(format, items + [last])
         == Texts(format, items)
            + (if ItemText(format, last).Some? then [ItemText(format, last).value] else [])
  {
    assert (items + [last])[..|items|] == items;
  }

  lemma {:induction false} TextsPrefix(format: Format, items: seq<Item>, k: nat)
    requires k <= |items|
    ensures Texts(format, items[..k]) <= Texts(format, items)
    decreases |items| - k
  {
    if k < |items| {
      TextsPrefix(format, items, k + 1);
      TextsSnoc(format, items[..k], items[k]);
      assert items[..k] + [items[k]] == items[..k + 1];
    } else {
      assert items[..k] == items;
    }
  }

  lemma OpenedSnoc(texts: seq<string>, last: string)
    ensures Opened(texts + [last]) == Opened(texts) + (Start(texts) + last)
  {
    assert (texts + [last])[..|texts|] == texts;
    if texts == [] {
      assert Opened(texts) + (OPENER + last) == OPENER + last;
      assert Separated(texts + [last]) == last;
    } else {
      Assoc(OPENER, Separated(texts), SEPARATOR + last);
      Assoc(Separated(texts), SEPARATOR, last);
    }
  }

  // ----- Items that fail -----

  predicate Fails(format: Format, item: Item) {
    match format case Json => item.compact.None? case PrettyJson => item.pretty == []
  }

  function Surviving(format: Format, items: seq<Item>): seq<Item> {
    if items == [] then []
    else
      Surviving(format, items[..|items| - 1])
      + (if Fails(format, items[|items| - 1]) then [] else [items[|items| - 1]])
  }

  /** In the compact form, items that fail leave no trace. */
  lemma {:induction false} CompactFailuresVanish(items: seq<Item>)
    ensures Texts(Json, items) == Texts(Json, Surviving(Json, items))
  {
    if items != [] {
      var init := items[..|items| - 1];
      CompactFailuresVanish(init);
      TextsSnoc(Json, Surviving(Json, init), items[|items| - 1]);
      assert Surviving(Json, init) + [] == Surviving(Json, init);
      assert Texts(Json, init) + [] == Texts(Json, init);
    }
  }

  /** A pretty item that fails, and the document it leaves: an array with nothing in it that is not
      the empty array. */
  lemma HoleInArray()
    ensures Fails(PrettyJson, Item(None, []))
    ensures Document(Texts(PrettyJson, [Item(None, [])])) == "[\n\n]\n" != Document([])
  {
    var items := [Item(None, [])];
    assert items[..0] == [];
    assert Texts(PrettyJson, items) == [""];
  }

  // ----- Whole runs with items that fail -----

  /** The same run without the items that fail. */
  function OfSurvivors(run: Run): Run {
    run.(first := Surviving(run.format, run.first), second := Surviving(run.format, run.second))
  }

  /** In the compact form, a run leaves the document of the surviving items. */
  lemma CompactRunOfSurvivors(run: Run)
    requires run.format.Json? && run.cancel.Never?
    ensures run.AllTexts() == OfSurvivors(run).AllTexts()
    ensures !run.LeftOpen() && !OfSurvivors(run).LeftOpen()
  {
    hide Texts, Surviving;
    CompactFailuresVanish(run.first);
    CompactFailuresVanish(run.second);
  }

  function TakeItems(items: seq<Item>, limit: nat): seq<Item> {
    if limit == 0 || |items| <= limit then items else items[..limit]
  }

  /** The items a pretty run writes. */
  function PrettyItems(run: Run): seq<Item> {
    TakeItems(run.first, run.limit) + (if run.Second() then TakeItems(run.second, run.Limit2()) else [])
  }

  predicate NoneFails(items: seq<Item>) {
    forall i :: 0 <= i < |items| ==> !Fails(PrettyJson, items[i])
  }

  lemma {:induction false} PrettyTexts(items: seq<Item>)
    ensures |Texts(PrettyJson, items)| == |items|
    ensures forall i :: 0 <= i < |items| ==> Texts(PrettyJson, items)[i] == Indented(items[i].pretty)
  {
    hide Indented;
    if items != [] {
      PrettyTexts(items[..|items| - 1]);
    }
  }

  lemma TakenTexts(items: seq<Item>, limit: nat)
    ensures Take(Texts(PrettyJson, items), limit) == Texts(PrettyJson, TakeItems(items, limit))
  {
    hide Texts, Indented;
    PrettyTexts(items);
    PrettyTexts(TakeItems(items, limit));
  }

  /** The texts of a pretty run are those of its items, one for one. */
  lemma PrettyRunTexts(run: Run)
    requires run.format.PrettyJson? && run.cancel.Never?
    ensures run.AllTexts() == Texts(PrettyJson, PrettyItems(run))
  {
    hide Texts, Take, TakeItems, Indented;
    TakenTexts(run.first, run.limit);
    TakenTexts(run.second, run.Limit2());
    PrettyTexts(TakeItems(run.first, run.limit));
    PrettyTexts(TakeItems(run.second, run.Limit2()));
    PrettyTexts(PrettyItems(run));
  }

  lemma {:induction false} SurvivingConcat(a: seq<Item>, b: seq<Item>)
    ensures Surviving(PrettyJson, a + b) == Surviving(PrettyJson, a) + Surviving(PrettyJson, b)
    decreases |b|
  {
    if b == [] {
      assert a + b == a;
    } else {
      var init := b[..|b| - 1];
      SurvivingConcat(a, init);
      assert (a + b)[..|a + b| - 1] == a + init;
    }
  }

  lemma {:induction false} SurvivorsSurvive(items: seq<Item>)
    ensures NoneFails(Surviving(PrettyJson, items))
    ensures NoneFails(items) ==> Surviving(PrettyJson, items) == items
  {
    if items != [] {
      SurvivorsSurvive(items[..|items| - 1]);
    }
  }

  /** Up to the first failure within the limit, dropping failures changes nothing. */
  lemma SamePrefix(items: seq<Item>, limit: nat, j: nat)
    requires j <= |TakeItems(items, limit)| && NoneFails(items[..j])
    ensures items[..j] <= TakeItems(Surviving(PrettyJson, items), limit)
    ensures j == |TakeItems(items, limit)| ==> TakeItems(Surviving(PrettyJson, items), limit) == items[..j]
    ensures NoneFails(TakeItems(Surviving(PrettyJson, items), limit))
  {
    hide Surviving, TakeItems, NoneFails;
    TakeBegins(items, limit, j);
    SurvivingConcat(items[..j], items[j..]);
    SurvivorsSurvive(items[..j]);
    SurvivorsSurvive(items);
    TakenNoneFails(Surviving(PrettyJson, items), limit);
    assert items[..j] + items[j..] == items;
    TakeStarts(items[..j], Surviving(PrettyJson, items[j..]), limit);
    if j == |items| {
      assert items[..j] == items && items[j..] == [];
      SurvivorsSurvive([]);
    }
  }

  lemma TakenNoneFails(items: seq<Item>, limit: nat)
    requires NoneFails(items)
    ensures NoneFails(TakeItems(items, limit))
  {
  }

  lemma TakeBegins(items: seq<Item>, limit: nat, j: nat)
    requires j <= |TakeItems(items, limit)|
    ensures j <= |items| && (limit == 0 || j <= limit)
    ensures j == |TakeItems(items, limit)| ==> j == |items| || j == limit > 0
    ensures NoneFails([]) && (j == |items| ==> TakeItems(items, limit) == items)
  {
  }

  lemma TakeStarts(a: seq<Item>, rest: seq<Item>, limit: nat)
    requires limit == 0 || |a| <= limit
    ensures a <= TakeItems(a + rest, limit)
    ensures |a| == limit > 0 || rest == [] ==> TakeItems(a + rest, limit) == a
  {
    assert (a + rest)[..|a|] == a;
  }

  /** The same for the items of a run. */
  lemma SameRunPrefix(run: Run, j: nat)
    requires run.format.PrettyJson? && run.cancel.Never?
    requires j <= |PrettyItems(run)| && NoneFails(PrettyItems(run)[..j])
    ensures PrettyItems(run)[..j] <= PrettyItems(OfSurvivors(run))
    ensures j == |PrettyItems(run)| ==> PrettyItems(OfSurvivors(run)) == PrettyItems(run)
  {
    hide Surviving, Texts, NeedsFallback, SecondLimit;
    var a, other := TakeItems(run.first, run.limit), OfSurvivors(run);
    var n := if j < |a| then j else |a|;
    assert PrettyItems(run)[..j][..n] == run.first[..n];
    SamePrefix(run.first, run.limit, n);
    if j >= |a| {
      assert a == run.first[..n];
      TakenTexts(run.first, run.limit);
      TakenTexts(other.first, run.limit);
      assert run.Second() == other.Second() && run.Limit2() == other.Limit2();
      if run.Second() {
        assert PrettyItems(run)[..j][n..] == run.second[..j - n];
        SamePrefix(run.second, run.Limit2(), j - n);
      }
    }
  }

  lemma SurvivorsDoNotFail(run: Run)
    requires run.format.PrettyJson?
    ensures NoneFails(PrettyItems(OfSurvivors(run)))
  {
    hide Surviving;
    SurvivorsSurvive(run.first);
    SurvivorsSurvive(run.second);
  }

  /** What follows an item in a document. */
  function Tail(rest: seq<string>): string {
    if rest == [] then CLOSER else SEPARATOR + rest[0] + Tail(rest[1..])
  }

  lemma {:induction false} DocumentIs(texts: seq<string>, rest: seq<string>)
    requires texts != []
    ensures Document(texts + rest) == Opened(texts) + Tail(rest)
    decreases |rest|
  {
    hide Opened, Separated;
    if rest == [] {
      assert texts + rest == texts;
      assert Document(texts) == Opened(texts) + CLOSER by {
        DocumentEnds(texts);
      }
    } else {
      DocumentIs(texts + [rest[0]], rest[1..]);
      OpenedSnoc(texts, rest[0]);
      assert texts + [rest[0]] + rest[1..] == texts + rest;
      Assoc(Opened(texts), SEPARATOR + rest[0], Tail(rest[1..]));
    }
  }

  lemma DocumentEnds(texts: seq<string>)
    requires texts != []
    ensures Document(texts) == Opened(texts) + CLOSER
  {
  }

  /** A document goes on behind the items `common` with their separator, the next text and more. */
  lemma DocumentGoesOn(common: seq<string>, next: string, rest: seq<string>)
    ensures Document(common + [next] + rest) == Opened(common) + Start(common) + next + Tail(rest)
  {
    hide Opened, Separated, Document, Start;
    DocumentIs(common + [next], rest);
    OpenedSnoc(common, next);
    Assoc(Opened(common), Start(common), next);
  }

  /** An empty text shows in a document: no document that goes on with an indented text in its place
      is the same. */
  lemma HoleIsNoText(common: seq<string>, rest: seq<string>, next: string, others: seq<string>)
    requires next != "" && next[0] == ' '
    ensures Document(common + [""] + rest) != Document(common + [next] + others)
  {
    hide Opened, Document, Start;
    DocumentGoesOn(common, "", rest);
    DocumentGoesOn(common, next, others);
    var front := Opened(common) + Start(common);
    assert front + "" == front;
    assert (front + Tail(rest))[|front|] == Tail(rest)[0] != ' ';
    assert (front + next + Tail(others))[|front|] == ' ';
  }

  /** Nor is one that ends there. */
  lemma HoleIsNoEnd(common: seq<string>, rest: seq<string>)
    ensures Document(common + [""] + rest) != Document(common)
  {
    hide Separated;
    DocumentGoesOn(common, "", rest);
    if common == [] {
      assert Document(common + [""] + rest)[1] == '\n';
    } else {
      DocumentEnds(common);
      assert Document(common + [""] + rest)[|Opened(common)|] == ',';
    }
  }

  lemma {:induction false} FirstFailure(items: seq<Item>) returns (j: nat)
    requires !NoneFails(items)
    ensures j < |items| && Fails(PrettyJson, items[j]) && NoneFails(items[..j])
  {
    if NoneFails(items[..|items| - 1]) {
      j := |items| - 1;
      assert forall i :: 0 <= i < j ==> items[..j][i] == items[i];
    } else {
      j := FirstFailure(items[..|items| - 1]);
      assert items[..|items| - 1][..j] == items[..j];
    }
  }

  /** A list of items with a failure has another document than any list without, as long as that one
      starts alike. */
  lemma FailureShows(items: seq<Item>, others: seq<Item>, j: nat)
    requires j < |items| && Fails(PrettyJson, items[j]) && items[..j] <= others && NoneFails(others)
    ensures Document(Texts(PrettyJson, items)) != Document(Texts(PrettyJson, others))
  {
    hide Texts, Document, Indented;
    NothingIndented("");
    var rest := PrettySplit(items, j);
    var common := Texts(PrettyJson, items[..j]);
    assert others[..j] == items[..j];
    if j < |others| {
      var more := PrettySplit(others, j);
      IndentedStart(others[j].pretty);
      HoleIsNoText(common, rest, Indented(others[j].pretty), more);
    } else {
      assert others == items[..j];
      HoleIsNoEnd(common, rest);
    }
  }

  /** The texts in front of an item, its own, and those behind it. */
  lemma PrettySplit(items: seq<Item>, j: nat) returns (rest: seq<string>)
    requires j < |items|
    ensures Texts(PrettyJson, items) == Texts(PrettyJson, items[..j]) + [Indented(items[j].pretty)] + rest
  {
    hide Texts, Indented;
    PrettyTexts(items);
    PrettyTexts(items[..j]);
    TextsPrefix(PrettyJson, items, j);
    var texts := Texts(PrettyJson, items);
    rest := texts[j + 1..];
    assert texts == texts[..j] + [texts[j]] + texts[j + 1..];
  }

  /** In the pretty form, the document of a list is that of its surviving items exactly when no item
      fails: an item that fails still claims its place in the array. */
  lemma {:induction false} PrettyFailuresLeaveHoles(items: seq<Item>)
    ensures Document(Texts(PrettyJson, items)) == Document(Texts(PrettyJson, Surviving(PrettyJson, items)))
       <==> NoneFails(items)
  {
    hide Texts, Surviving, Document;
    SurvivorsSurvive(items);
    if !NoneFails(items) {
      var j := FirstFailure(items);
      SamePrefix(items, 0, j);
      FailureShows(items, Surviving(PrettyJson, items), j);
    }
  }

  /** In the pretty form, a run leaves the document of the surviving items exactly when none of the
      items within the limits of its passes fails. */
  lemma PrettyRunOfSurvivors(run: Run)
    requires run.format.PrettyJson? && run.cancel.Never?
    ensures Document(run.AllTexts()) == Document(OfSurvivors(run).AllTexts()) <==> NoneFails(PrettyItems(run))
    ensures Document(run.AllTexts()) == Document(Texts(PrettyJson, Surviving(PrettyJson, PrettyItems(run))))
       <==> NoneFails(PrettyItems(run))
    ensures !run.LeftOpen() && !OfSurvivors(run).LeftOpen()
  {
    hide Texts, Surviving, PrettyItems, Document, NoneFails;
    var items := PrettyItems(run);
    PrettyRunTexts(run);
    PrettyRunTexts(OfSurvivors(run));
    PrettyFailuresLeaveHoles(items);
    if NoneFails(items) {
      assert items[..|items|] == items;
      SameRunPrefix(run, |items|);
    } else {
      var j := FirstFailure(items);
      SameRunPrefix(run, j);
      SurvivorsDoNotFail(run);
      FailureShows(items, PrettyItems(OfSurvivors(run)), j);
    }
  }

  lemma IndentedStart(lines: seq<string>)
    requires lines != []
    ensures Indented(lines) != "" && Indented(lines)[0] == ' '
  {
  }
}
