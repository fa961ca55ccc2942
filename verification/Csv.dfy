/** CSV output, `src/cli/output.rs`, read back by section 2 of RFC 4180. The program ends its rows with
    a line feed, so the reader takes one for the grammar's CRLF, besides CRLF itself. */
module Csv {
  import opened Wrappers
  import opened Protocols
  import Net
  import Text

  predicate IsSpecial(c: char) {
    c == ',' || c == '"' || c == '\n' || c == '\r'
  }

  predicate IsPlain(field: string) {
    forall i :: 0 <= i < |field| ==> !IsSpecial(field[i])
  }

  // ----- Writing -----

  function Doubled(s: string): string {
    if s == "" then "" else (if s[0] == '"' then "\"\"" else [s[0]]) + Doubled(s[1..])
  }

  function Quoted(field: string): string {
    if IsPlain(field) then field else "\"" + Doubled(field) + "\""
  }

  /** `csv_quote`. */
  method CsvQuote(start: string, field: string) returns (buf: string)
    ensures buf == start + Quoted(field)
  {
    buf := start;
    if exists i :: 0 <= i < |field| && IsSpecial(field[i]) {
      buf := buf + "\"";
      for k := 0 to |field|
        invariant buf == start + "\"" + Doubled(field[..k])
      {
        DoubledSnoc(field[..k], field[k]);
        assert field[..k] + [field[k]] == field[..k + 1];
        Assoc(start + "\"", Doubled(field[..k]), if field[k] == '"' then "\"\"" else [field[k]]);
        if field[k] == '"' {
          buf := buf + "\"\"";
        } else {
          buf := buf + [field[k]];
        }
      }
      assert field[..|field|] == field;
      Assoc(start, "\"", Doubled(field));
      Assoc(start, "\"" + Doubled(field), "\"");
      buf := buf + "\"";
    } else {
      buf := buf + field;
    }
  }

  lemma {:induction false} DoubledSnoc(s: string, c: char)
    ensures Doubled(s + [c]) == Doubled(s) + (if c == '"' then "\"\"" else [c])
  {
    if s == "" {
      assert s + [c] == [c] && [c][1..] == "";
    } else {
      DoubledSnoc(s[1..], c);
      assert (s + [c])[1..] == s[1..] + [c];
    }
  }

  function Row(fields: seq<string>): string
    requires fields != []
  {
    if |fields| == 1 then Quoted(fields[0]) else Quoted(fields[0]) + "," + Row(fields[1..])
  }

  // ----- Reading, by the grammar of RFC 4180 -----

  /** Unquoted text: up to the next special character. */
  function PlainLength(s: string): (n: nat)
    ensures n <= |s| && IsPlain(s[..n]) && (n < |s| ==> IsSpecial(s[n]))
  {
    if s == "" || IsSpecial(s[0]) then 0 else 1 + PlainLength(s[1..])
  }

  /** Text behind an opening quote, up to the closing one; a doubled quote stands for one. */
  function ReadQuoted(s: string): (r: Option<(string, string)>)
    ensures r.Some? ==> |r.value.1| < |s|
    decreases |s|
  {
    if s == "" then None
    else if s[0] != '"' then
      var (text, rest) :- ReadQuoted(s[1..]);
      Some(([s[0]] + text, rest))
    else if |s| > 1 && s[1] == '"' then
      var (text, rest) :- ReadQuoted(s[2..]);
      Some(("\"" + text, rest))
    else Some(("", s[1..]))
  }

  function ReadField(s: string): (r: Option<(string, string)>)
    ensures r.Some? ==> |r.value.1| <= |s|
  {
    if s != "" && s[0] == '"' then ReadQuoted(s[1..])
    else Some((s[..PlainLength(s)], s[PlainLength(s)..]))
  }

  /** Length of the line break `s` starts with, 0 if with none. */
  function LineBreak(s: string): nat {
    if s != "" && s[0] == '\n' then 1 else if "\r\n" <= s then 2 else 0
  }

  /** What may follow a row. */
  predicate EndsRow(rest: string) {
    rest == "" || LineBreak(rest) > 0
  }

  /** Fields separated by commas, up to a line break or the end. */
  function ReadRow(s: string): (r: Option<(seq<string>, string)>)
    ensures r.Some? ==> |r.value.1| <= |s| && EndsRow(r.value.1)
    decreases |s|
  {
    var (field, rest) :- ReadField(s);
    if EndsRow(rest) then Some(([field], rest))
    else if rest[0] != ',' then None
    else
      var (fields, end) :- ReadRow(rest[1..]);
      Some(([field] + fields, end))
  }

  /** Rows up to the end, a line break behind the last one being optional. */
  function ReadFile(s: string): Option<seq<seq<string>>>
    decreases |s|
  {
    if s == "" then Some([])
    else
      var (fields, rest) :- ReadRow(s);
      var rows :- ReadFile(rest[LineBreak(rest)..]);
      Some([fields] + rows)
  }

  /** What may follow a field. */
  predicate Delimited(rest: string) {
    EndsRow(rest) || rest[0] == ','
  }

  lemma {:induction false} ReadQuotedBack(field: string, rest: string)
    requires Delimited(rest)
    ensures ReadQuoted(Doubled(field) + "\"" + rest) == Some((field, rest))
  {
    var s := Doubled(field) + "\"" + rest;
    if field == "" {
      assert s == "\"" + rest && s[1..] == rest;
    } else {
      var tail := Doubled(field[1..]) + "\"" + rest;
      ReadQuotedBack(field[1..], rest);
      var first := if field[0] == '"' then "\"\"" else [field[0]];
      Assoc(first, Doubled(field[1..]), "\"");
      Assoc(first, Doubled(field[1..]) + "\"", rest);
      assert s == first + tail && s[|first|..] == tail;
      assert [field[0]] + field[1..] == field;
    }
  }

  lemma {:induction false} PlainLengthOf(field: string, rest: string)
    requires IsPlain(field) && Delimited(rest)
    ensures PlainLength(field + rest) == |field|
  {
    if field == "" {
      assert field + rest == rest;
    } else {
      PlainLengthOf(field[1..], rest);
      assert (field + rest)[1..] == field[1..] + rest;
    }
  }

  lemma ReadFieldBack(field: string, rest: string)
    requires Delimited(rest)
    ensures ReadField(Quoted(field) + rest) == Some((field, rest))
  {
    hide ReadQuoted, PlainLength, Doubled;
    var s := Quoted(field) + rest;
    if IsPlain(field) {
      PlainLengthOf(field, rest);
      assert s[..|field|] == field && s[|field|..] == rest;
      assert s == "" || s[0] != '"';
    } else {
      ReadQuotedBack(field, rest);
      assert s[1..] == Doubled(field) + "\"" + rest;
    }
  }

  /** Any list of fields, whatever quotes, commas and line breaks they hold, is read back from the
      row it is written as. */
  lemma {:induction false} FieldsSurvive(fields: seq<string>, rest: string)
    requires fields != [] && EndsRow(rest)
    ensures ReadRow(Row(fields) + rest) == Some((fields, rest))
    decreases |fields|
  {
    hide ReadField, Quoted;
    if |fields| == 1 {
      ReadFieldBack(fields[0], rest);
      assert [fields[0]] == fields;
    } else {
      var tail := "," + Row(fields[1..]) + rest;
      FieldsSurvive(fields[1..], rest);
      ReadFieldBack(fields[0], tail);
      assert Row(fields) + rest == Quoted(fields[0]) + tail;
      assert tail[1..] == Row(fields[1..]) + rest;
      assert [fields[0]] + fields[1..] == fields;
    }
  }

  /** A field is quoted exactly when it holds a comma, a quote or either line break character. */
  lemma QuotedWhenNeeded(field: string)
    ensures Quoted(field) == field
       <==> ',' !in field && '"' !in field && 0x0A as char !in field && 0x0D as char !in field
  {
    hide Doubled;
    if IsPlain(field) {
      assert ',' !in field && '"' !in field;
    } else {
      DoubledIsNoShorter(field);
      var i :| 0 <= i < |field| && IsSpecial(field[i]);
      assert field[i] in field;
    }
  }

  lemma {:induction false} DoubledIsNoShorter(s: string)
    ensures |Doubled(s)| >= |s|
  {
    if s != "" {
      DoubledIsNoShorter(s[1..]);
    }
  }

  // ----- Proxy rows -----

  /** The columns of one proxy. `responseTime` and `asn` are printed numbers. */
  datatype ProxyRow = ProxyRow(ip: Ipv4, port: u16, types: seq<Protocol>, responseTime: string,
                               country: string, ipType: string, asn: string, aso: string)

  const COLUMNS := 8

  function TypeTexts(types: seq<Protocol>): seq<string> {
    seq(|types|, i requires 0 <= i < |types| => ProtocolText(types[i]))
  }

  /** The fields a reader sees: several types take one field each. */
  function Fields(row: ProxyRow): (fields: seq<string>)
    ensures fields != []
  {
    [Net.Ipv4Text(row.ip), Text.NatText(row.port)]
    + (if row.types == [] then [""] else TypeTexts(row.types))
    + [row.responseTime, row.country, row.ipType, row.asn, row.aso]
  }

  /** `write_csv_row`: the type column joins its texts with bare commas, and only the text columns
      are quoted. */
  method WriteCsvRow(start: string, row: ProxyRow) returns (buf: string)
    requires IsPlain(row.responseTime) && IsPlain(row.asn)
    ensures buf == start + (Row(Fields(row)) + "\n")
  {
    hide Row, Quoted, Joined, Net.Ipv4Text, Text.NatText, ProtocolText;
    ghost var texts := TypeTexts(row.types);
    ghost var done := [Net.Ipv4Text(row.ip)];
    PlainColumns(row);
    JoinedOne(done[0]);
    buf := start + Net.Ipv4Text(row.ip);
    JoinedMore(start, done, Text.NatText(row.port));
    buf := buf + "," + Text.NatText(row.port);
    done := done + [Text.NatText(row.port)];
    buf := buf + ",";
    ghost var before := buf;
    assert buf + "" == buf;
    for i := 0 to |row.types|
      invariant buf == if i == 0 then before else start + Joined(done + texts[..i])
    {
      Assoc(done, texts[..i], [texts[i]]);
      assert texts[..i] + [texts[i]] == texts[..i + 1];
      assert done + [] == done;
      JoinedMore(start, done + texts[..i], texts[i]);
      if i > 0 {
        buf := buf + ",";
      }
      buf := buf + ProtocolText(row.types[i]);
    }
    JoinedMore(start, done, "");
    assert texts[..|texts|] == texts;
    done := done + (if row.types == [] then [""] else texts);
    JoinedMore(start, done, row.responseTime);
    buf := buf + ",";
    buf := buf + row.responseTime;
    done := done + [row.responseTime];
    JoinedMore(start, done, Quoted(row.country));
    buf := buf + ",";
    buf := CsvQuote(buf, row.country);
    done := done + [Quoted(row.country)];
    JoinedMore(start, done, Quoted(row.ipType));
    buf := buf + ",";
    buf := CsvQuote(buf, row.ipType);
    done := done + [Quoted(row.ipType)];
    JoinedMore(start, done, row.asn);
    buf := buf + ",";
    buf := buf + row.asn;
    done := done + [row.asn];
    JoinedMore(start, done, Quoted(row.aso));
    buf := buf + ",";
    buf := CsvQuote(buf, row.aso);
    done := done + [Quoted(row.aso)];
    QuotedColumns(row);
    assert done == QuotedFields(Fields(row));
    RowIsJoined(Fields(row));
    Assoc(start, Row(Fields(row)), "\n");
    buf := buf + "\n";
  }

  function QuotedFields(fields: seq<string>): seq<string> {
    seq(|fields|, i requires 0 <= i < |fields| => Quoted(fields[i]))
  }

  function Joined(texts: seq<string>): string {
    if texts == [] then ""
    else if |texts| == 1 then texts[0]
    else Joined(texts[..|texts| - 1]) + "," + texts[|texts| - 1]
  }

  lemma JoinedSnoc(texts: seq<string>, last: string)
    ensures Joined(texts + [last]) == if texts == [] then last else Joined(texts) + "," + last
  {
    assert (texts + [last])[..|texts|] == texts;
  }

  lemma JoinedOne(text: string)
    ensures Joined([text]) == text
  {
  }

  lemma JoinedMore(start: string, done: seq<string>, text: string)
    requires done != []
    ensures start + Joined(done) + "," + text == start + Joined(done + [text])
  {
    hide Joined;
    JoinedSnoc(done, text);
    Assoc(start, Joined(done), ",");
    Assoc(start, Joined(done) + ",", text);
  }

  /** The fields that are written as they are need no quotes. */
  lemma QuotedColumns(row: ProxyRow)
    requires IsPlain(row.responseTime) && IsPlain(row.asn)
    ensures var types := if row.types == [] then [""] else TypeTexts(row.types);
            QuotedFields(Fields(row))
            == [Net.Ipv4Text(row.ip)] + [Text.NatText(row.port)] + types + [row.responseTime]
               + [Quoted(row.country)] + [Quoted(row.ipType)] + [row.asn] + [Quoted(row.aso)]
  {
    hide Doubled, Net.Ipv4Text, Text.NatText, ProtocolText;
    PlainColumns(row);
  }

  lemma {:induction false} JoinedCons(first: string, rest: seq<string>)
    requires rest != []
    ensures Joined([first] + rest) == first + "," + Joined(rest)
  {
    var k := |rest| - 1;
    if k == 0 {
      JoinedSnoc([first], rest[0]);
      assert [rest[0]] == rest;
    } else {
      JoinedCons(first, rest[..k]);
      JoinedSnoc([first] + rest[..k], rest[k]);
      JoinedSnoc(rest[..k], rest[k]);
      assert rest[..k] + [rest[k]] == rest;
      assert [first] + rest[..k] + [rest[k]] == [first] + rest;
      Assoc(first + ",", Joined(rest[..k]), ",");
      Assoc(first + ",", Joined(rest[..k]) + ",", rest[k]);
    }
  }

  lemma {:induction false} RowIsJoined(fields: seq<string>)
    requires fields != []
    ensures Row(fields) == Joined(QuotedFields(fields))
  {
    hide Quoted;
    var quoted := QuotedFields(fields);
    if |fields| == 1 {
      assert quoted == [Quoted(fields[0])];
    } else {
      RowIsJoined(fields[1..]);
      assert quoted[1..] == QuotedFields(fields[1..]);
      assert quoted == [quoted[0]] + quoted[1..];
      JoinedCons(quoted[0], quoted[1..]);
    }
  }

  lemma PlainConcat(a: string, b: string)
    requires IsPlain(a) && IsPlain(b)
    ensures IsPlain(a + b)
  {
  }

  lemma LevelIsPlain(a: Anonymity)
    ensures IsPlain(LevelText(a))
  {
  }

  lemma FamilyIsPlain(name: string)
    requires name in {"HTTP", "HTTPS", "SOCKS4", "SOCKS5", "CONNECT:"}
    ensures IsPlain(name)
  {
  }

  lemma ProtocolTextIsPlain(p: Protocol)
    ensures IsPlain(ProtocolText(p))
  {
    hide Text.NatText, IsPlain, LevelText;
    match p
    case Http(a) =>
      FamilyIsPlain("HTTP");
      LevelIsPlain(a);
      PlainConcat("HTTP", LevelText(a));
    case Https(a) =>
      FamilyIsPlain("HTTPS");
      LevelIsPlain(a);
      PlainConcat("HTTPS", LevelText(a));
    case Socks4 => FamilyIsPlain("SOCKS4");
    case Socks5 => FamilyIsPlain("SOCKS5");
    case Connect(port) =>
      FamilyIsPlain("CONNECT:");
      PortIsPlain(port);
      PlainConcat("CONNECT:", Text.NatText(port));
  }

  lemma AddressIsPlain(ip: Ipv4)
    ensures IsPlain(Net.Ipv4Text(ip))
  {
    hide Text.NatText;
  }

  lemma PlainColumns(row: ProxyRow)
    ensures IsPlain(Net.Ipv4Text(row.ip)) && IsPlain(Text.NatText(row.port))
    ensures forall i :: 0 <= i < |row.types| ==> IsPlain(TypeTexts(row.types)[i])
  {
    hide IsPlain, ProtocolText, Net.Ipv4Text, Text.NatText;
    AddressIsPlain(row.ip);
    PortIsPlain(row.port);
    forall i | 0 <= i < |row.types| ensures IsPlain(TypeTexts(row.types)[i]) {
      ProtocolTextIsPlain(row.types[i]);
    }
  }

  lemma PortIsPlain(port: u16)
    ensures IsPlain(Text.NatText(port))
  {
  }

  /** A reader gets a proxy's row back as its own eight columns exactly when the proxy has at most
      one type. */
  lemma {:induction false} RowHasItsColumns(row: ProxyRow, rest: string)
    requires EndsRow(rest)
    ensures ReadRow(Row(Fields(row)) + rest) == Some((Fields(row), rest))
    ensures |Fields(row)| == COLUMNS <==> |row.types| <= 1
  {
    hide ReadRow, Row;
    FieldsSurvive(Fields(row), rest);
  }

  /** What a column of the header stands for. */
  function Column(row: ProxyRow, name: string): Option<string> {
    match name
    case "ip" => Some(Net.Ipv4Text(row.ip))
    case "port" => Some(Text.NatText(row.port))
    case "type" => if |row.types| == 1 then Some(ProtocolText(row.types[0])) else Some("")
    case "response_time" => Some(row.responseTime)
    case "country" => Some(row.country)
    case "ip_type" => Some(row.ipType)
    case "asn" => Some(row.asn)
    case "aso" => Some(row.aso)
    case _ => None
  }

  /** The columns of a proxy with at most one type stand under their names. */
  lemma ColumnsMatchHeader(row: ProxyRow, i: nat)
    requires |row.types| <= 1 && i < 8
    ensures |HEADER| == |Fields(row)| == 8 && Column(row, HEADER[i]) == Some(Fields(row)[i])
  {
    hide Net.Ipv4Text, Text.NatText, ProtocolText;
    assert row.types != [] ==> TypeTexts(row.types) == [ProtocolText(row.types[0])];
    assert HEADER[i] == match i
                        case 0 => "ip"
                        case 1 => "port"
                        case 2 => "type"
                        case 3 => "response_time"
                        case 4 => "country"
                        case 5 => "ip_type"
                        case 6 => "asn"
                        case _ => "aso";
  }

  // ----- Whole files -----

  predicate NoneEmpty(records: seq<seq<string>>) {
    forall i :: 0 <= i < |records| ==> records[i] != []
  }

  function Lines(records: seq<seq<string>>): string
    requires NoneEmpty(records)
  {
    if records == [] then "" else Row(records[0]) + "\n" + Lines(records[1..])
  }

  lemma {:induction false} LinesSnoc(records: seq<seq<string>>, last: seq<string>)
    requires last != [] && NoneEmpty(records)
    ensures Lines(records + [last]) == Lines(records) + (Row(last) + "\n")
  {
    hide Row;
    if records == [] {
      assert records + [last] == [last] && [last][1..] == [];
      assert Lines([last]) == Row(last) + "\n" + Lines([]);
    } else {
      LinesSnoc(records[1..], last);
      assert (records + [last])[0] == records[0] && (records + [last])[1..] == records[1..] + [last];
      Assoc(Row(records[0]) + "\n", Lines(records[1..]), Row(last) + "\n");
    }
  }

  /** Any list of rows is read back from the file it is written as. */
  lemma {:induction false} FileSurvives(records: seq<seq<string>>)
    requires NoneEmpty(records)
    ensures ReadFile(Lines(records)) == Some(records)
  {
    hide Row, ReadRow;
    if records != [] {
      var rest := "\n" + Lines(records[1..]);
      var s := Lines(records);
      assert s == Row(records[0]) + rest;
      FieldsSurvive(records[0], rest);
      FileSurvives(records[1..]);
      assert rest[1..] == Lines(records[1..]);
      assert [records[0]] + records[1..] == records;
    }
  }

  const HEADER: seq<string> := ["ip", "port", "type", "response_time", "country", "ip_type", "asn", "aso"]

  lemma NamesArePlain(name: string)
    requires name in HEADER
    ensures IsPlain(name)
  {
  }

  lemma {:induction false} PlainRow(fields: seq<string>)
    requires fields != [] && forall f | f in fields :: IsPlain(f)
    ensures Row(fields) == Joined(fields)
  {
    hide Joined, IsPlain;
    RowIsJoined(fields);
    assert QuotedFields(fields) == fields;
  }

  lemma FirstNames()
    ensures "ip" + "," + "port" + "," + "type" + "," + "response_time" == "ip,port,type,response_time"
  {
  }

  lemma LastNames(front: string)
    ensures front + "," + "country" + "," + "ip_type" + "," + "asn" + "," + "aso"
         == front + ",country,ip_type,asn,aso"
  {
    var names := "," + "country" + "," + "ip_type" + "," + "asn" + "," + "aso";
    assert names == ",country,ip_type,asn,aso";
    assert front + "," + "country" + "," + "ip_type" + "," + "asn" + "," + "aso" == front + names;
  }

  lemma HeaderText()
    ensures "ip,port,type,response_time" + ",country,ip_type,asn,aso"
         == "ip,port,type,response_time,country,ip_type,asn,aso"
  {
  }

  lemma HeaderIsRow()
    ensures Row(HEADER) == "ip,port,type,response_time,country,ip_type,asn,aso"
  {
    hide Joined, Row, IsPlain;
    forall f | f in HEADER ensures IsPlain(f) {
      NamesArePlain(f);
    }
    PlainRow(HEADER);
    FirstNames();
    LastNames("ip,port,type,response_time");
    HeaderText();
    JoinedOne("ip");
    JoinedSnoc(["ip"], "port");
    JoinedSnoc(["ip"] + ["port"], "type");
    JoinedSnoc(["ip"] + ["port"] + ["type"], "response_time");
    JoinedSnoc(HEADER[..4], "country");
    JoinedSnoc(HEADER[..5], "ip_type");
    JoinedSnoc(HEADER[..6], "asn");
    JoinedSnoc(HEADER[..7], "aso");
    assert ["ip"] + ["port"] + ["type"] + ["response_time"] == HEADER[..4];
    assert HEADER[..4] + ["country"] == HEADER[..5] && HEADER[..5] + ["ip_type"] == HEADER[..6];
    assert HEADER[..6] + ["asn"] == HEADER[..7] && HEADER[..7] + ["aso"] == HEADER;
  }

  /** The rows of a CSV pass, behind the header if it writes one. */
  function Records(header: bool, rows: seq<ProxyRow>): (records: seq<seq<string>>)
    ensures NoneEmpty(records)
  {
    (if header then [HEADER] else []) + seq(|rows|, i requires 0 <= i < |rows| => Fields(rows[i]))
  }

  /** The CSV part of `process_result`. */
  method WriteCsv(start: string, header: bool, rows: seq<ProxyRow>) returns (buf: string)
    requires forall row | row in rows :: IsPlain(row.responseTime) && IsPlain(row.asn)
    ensures buf == start + Lines(Records(header, rows))
  {
    hide Lines, Row, Fields, IsPlain;
    ghost var none: seq<ProxyRow> := [];
    buf := start;
    StartOfFile(start, header);
    if header {
      buf := buf + "ip,port,type,response_time,country,ip_type,asn,aso\n";
    }
    for i := 0 to |rows|
      invariant buf == start + Lines(Records(header, rows[..i]))
    {
      ghost var done := Records(header, rows[..i]);
      assert Records(header, rows[..i + 1]) == done + [Fields(rows[i])];
      LinesSnoc(done, Fields(rows[i]));
      Assoc(start, Lines(done), Row(Fields(rows[i])) + "\n");
      buf := WriteCsvRow(buf, rows[i]);
    }
    assert rows[..|rows|] == rows;
  }

  lemma StartOfFile(start: string, header: bool)
    ensures start + Lines(Records(header, []))
         == if header then start + "ip,port,type,response_time,country,ip_type,asn,aso\n" else start
  {
    hide Row;
    HeaderIsRow();
    assert Records(header, []) == if header then [HEADER] else [];
    assert [HEADER][1..] == [];
    assert Lines([HEADER]) == Row(HEADER) + "\n" + Lines([]);
  }

  /** A CSV output, header and all, is read back as the fields of its proxies. */
  lemma {:induction false} CsvReadsBack(header: bool, rows: seq<ProxyRow>)
    ensures ReadFile(Lines(Records(header, rows))) == Some(Records(header, rows))
  {
    FileSurvives(Records(header, rows));
  }
}
