/** The on-disk form of a parsed proxy list, `src/fetcher/cache.rs`. */
module RowCodec {
  import opened Wrappers
  import opened Protocols

  datatype Row = Row(ip: Ipv4, port: u16, protocol: Option<Protocol>)

  /** `FLXPCW02`. */
  const MAGIC: seq<byte> := [0x46, 0x4C, 0x58, 0x50, 0x43, 0x57, 0x30, 0x32]

  const U32_RANGE := 0x1_0000_0000

  /** The code of a protocol that is followed by a port of its own. */
  const CONNECT_CODE: byte := 11

  // ----- Codes -----

  function AnonCode(a: Anonymity): byte {
    match a
    case Elite => 0
    case Transparent => 1
    case Anonymous => 2
    case Unknown => 3
  }

  function AnonFromCode(code: int): Option<Anonymity> {
    match code
    case 0 => Some(Elite)
    case 1 => Some(Transparent)
    case 2 => Some(Anonymous)
    case 3 => Some(Unknown)
    case _ => None
  }

  function ProtocolCode(protocol: Option<Protocol>): Option<byte> {
    match protocol
    case None => None
    case Some(Http(a)) => Some(1 + AnonCode(a))
    case Some(Https(a)) => Some(5 + AnonCode(a))
    case Some(Socks4) => Some(9)
    case Some(Socks5) => Some(10)
    case Some(Connect(_)) => Some(CONNECT_CODE)
  }

  function ProtocolFromCode(code: byte): Option<Protocol> {
    if 1 <= code <= 4 then
      var a :- AnonFromCode(code - 1);
      Some(Http(a))
    else if 5 <= code <= 8 then
      var a :- AnonFromCode(code - 5);
      Some(Https(a))
    else if code == 9 then Some(Socks4)
    else if code == 10 then Some(Socks5)
    else None
  }

  lemma CodeRoundTrip(p: Protocol)
    requires !p.Connect?
    ensures ProtocolCode(Some(p)).Some? && ProtocolFromCode(ProtocolCode(Some(p)).value) == Some(p)
    ensures ProtocolCode(Some(p)).value != 0 && ProtocolCode(Some(p)).value != CONNECT_CODE
  {
  }

  // ----- Integers -----

  function LittleEndian16(n: u16): seq<byte> {
    [n % 256, n / 256]
  }

  function LittleEndian32(n: nat): seq<byte>
    requires n < U32_RANGE
  {
    [n % 256, n / 256 % 256, n / 65536 % 256, n / 16777216]
  }

  function Value16(bs: seq<byte>): u16
    requires |bs| >= 2
  {
    var low: int, high: int := bs[0], bs[1];
    low + 256 * high
  }

  function Value32(bs: seq<byte>): nat
    requires |bs| >= 4
  {
    var b0: int, b1: int, b2: int, b3: int := bs[0], bs[1], bs[2], bs[3];
    b0 + 256 * b1 + 65536 * b2 + 16777216 * b3
  }

  // ----- Encoding -----

  function EncodeProtocol(protocol: Option<Protocol>): seq<byte> {
    match protocol
    case None => [0]
    case Some(Connect(port)) => [CONNECT_CODE] + LittleEndian16(port)
    case Some(p) => [if ProtocolCode(Some(p)).Some? then ProtocolCode(Some(p)).value else 0]
  }

  function EncodeRow(row: Row): seq<byte> {
    [row.ip.a, row.ip.b, row.ip.c, row.ip.d] + LittleEndian16(row.port) + EncodeProtocol(row.protocol)
  }

  function EncodeRows(rows: seq<Row>): seq<byte> {
    if rows == [] then [] else EncodeRow(rows[0]) + EncodeRows(rows[1..])
  }

  /** The count field holds the low 32 bits of the number of rows. */
  function EncodeBody(rows: seq<Row>): seq<byte> {
    MAGIC + LittleEndian32(|rows| % U32_RANGE) + EncodeRows(rows)
  }

  /** One turn of the writing loop. */
  method PushRow(start: seq<byte>, row: Row) returns (buf: seq<byte>)
    ensures buf == start + EncodeRow(row)
  {
    hide LittleEndian16, ProtocolCode;
    ghost var fixed := [row.ip.a, row.ip.b, row.ip.c, row.ip.d] + LittleEndian16(row.port);
    buf := start + [row.ip.a, row.ip.b, row.ip.c, row.ip.d];
    buf := buf + LittleEndian16(row.port);
    assert buf == start + fixed;
    match row.protocol {
      case None => buf := buf + [0];
      case Some(Connect(port)) =>
        buf := buf + [CONNECT_CODE];
        buf := buf + LittleEndian16(port);
      case Some(p) =>
        var code := ProtocolCode(Some(p));
        buf := buf + [if code.Some? then code.value else 0];
    }
    assert buf == start + (fixed + EncodeProtocol(row.protocol));
  }

  /** The file body `store_rows` writes; no file is written for an empty list. */
  method StoreBody(rows: seq<Row>) returns (body: Option<seq<byte>>)
    ensures body == if rows == [] then None else Some(EncodeBody(rows))
  {
    hide EncodeRow, LittleEndian32;
    if rows == [] {
      return None;
    }
    var buf := MAGIC + LittleEndian32(|rows| % U32_RANGE);
    for i := 0 to |rows|
      invariant buf + EncodeRows(rows[i..]) == EncodeBody(rows)
    {
      ghost var start := buf;
      buf := PushRow(buf, rows[i]);
      assert EncodeRows(rows[i..]) == EncodeRow(rows[i]) + EncodeRows(rows[i + 1..]);
      assert start + EncodeRows(rows[i..]) == buf + EncodeRows(rows[i + 1..]);
    }
    assert EncodeRows(rows[|rows|..]) == [];
    assert buf + [] == buf;
    return Some(buf);
  }

  // ----- Decoding -----

  /** One row and what is behind it. A code that names no protocol makes the row untyped. */
  function ReadRow(bs: seq<byte>): (r: Option<(Row, seq<byte>)>)
    ensures r.Some? <==> |bs| >= 7 && (bs[6] == CONNECT_CODE ==> |bs| >= 9)
    ensures r.Some? ==> |r.value.1| < |bs|
  {
    if |bs| < 7 then None
    else
      var ip := Ipv4(bs[0], bs[1], bs[2], bs[3]);
      var port := Value16(bs[4..]);
      var code := bs[6];
      if code == 0 then Some((Row(ip, port, None), bs[7..]))
      else if code == CONNECT_CODE then
        if |bs| < 9 then None
        else Some((Row(ip, port, Some(Connect(Value16(bs[7..])))), bs[9..]))
      else Some((Row(ip, port, ProtocolFromCode(code)), bs[7..]))
  }

  function ReadRows(count: nat, bs: seq<byte>): Option<seq<Row>> {
    if count == 0 then Some([])
    else
      var (row, rest) :- ReadRow(bs);
      var rows :- ReadRows(count - 1, rest);
      Some([row] + rows)
  }

  function DecodeBody(body: seq<byte>): Option<seq<Row>> {
    if |body| < 12 || !(MAGIC <= body) then None else ReadRows(Value32(body[8..]), body[12..])
  }

  /** `decode_rows`. */
  method DecodeRows(body: seq<byte>) returns (rows: Option<seq<Row>>)
    ensures rows == DecodeBody(body)
  {
    if |body| < 12 || !(MAGIC <= body) {
      return None;
    }
    var n := Value32(body[8..]);
    var read: seq<Row> := [];
    var cursor := 12;
    PrependNothing(ReadRows(n, body[12..]));
    for i := 0 to n
      invariant 12 <= cursor <= |body|
      invariant DecodeBody(body) == Prepend(read, ReadRows(n - i, body[cursor..]))
    {
      ghost var rest := body[cursor..];
      if cursor + 7 > |body| {
        return None;
      }
      var ip := Ipv4(body[cursor], body[cursor + 1], body[cursor + 2], body[cursor + 3]);
      var port := Value16(body[cursor + 4..cursor + 6]);
      var code := body[cursor + 6];
      cursor := cursor + 7;
      assert rest[7..] == body[cursor..];
      var protocol: Option<Protocol>;
      if code == 0 {
        protocol := None;
      } else if code == CONNECT_CODE {
        if cursor + 2 > |body| {
          return None;
        }
        assert rest[9..] == body[cursor + 2..];
        protocol := Some(Connect(Value16(body[cursor..cursor + 2])));
        cursor := cursor + 2;
      } else {
        protocol := ProtocolFromCode(code);
      }
      assert ReadRow(rest) == Some((Row(ip, port, protocol), body[cursor..]));
      PrependStep(read, Row(ip, port, protocol), ReadRows(n - i - 1, body[cursor..]));
      read := read + [Row(ip, port, protocol)];
    }
    assert read + [] == read;
    return Some(read);
  }

  function Prepend(head: seq<Row>, tail: Option<seq<Row>>): Option<seq<Row>> {
    match tail case None => None case Some(rows) => Some(head + rows)
  }

  lemma PrependNothing(tail: Option<seq<Row>>)
    ensures Prepend([], tail) == tail
  {
    if tail.Some? {
      assert [] + tail.value == tail.value;
    }
  }

  lemma PrependStep(head: seq<Row>, row: Row, tail: Option<seq<Row>>)
    ensures Prepend(head, Prepend([row], tail)) == Prepend(head + [row], tail)
  {
    if tail.Some? {
      assert head + ([row] + tail.value) == head + [row] + tail.value;
    }
  }

  // ----- Round trip -----

  lemma ReadRowOfEncoded(row: Row, rest: seq<byte>)
    ensures ReadRow(EncodeRow(row) + rest) == Some((row, rest))
  {
    hide ProtocolCode, ProtocolFromCode;
    var bs := EncodeRow(row) + rest;
    if row.protocol.Some? && !row.protocol.value.Connect? {
      CodeRoundTrip(row.protocol.value);
    }
    assert bs[4..][0] == row.port % 256 && bs[4..][1] == row.port / 256;
    if row.protocol.Some? && row.protocol.value.Connect? {
      assert bs[7..][0] == row.protocol.value.port % 256 && bs[7..][1] == row.protocol.value.port / 256;
      assert bs[9..] == rest;
    } else {
      assert bs[7..] == rest;
    }
  }

  lemma {:induction false} ReadRowsOfEncoded(rows: seq<Row>, count: nat, rest: seq<byte>)
    requires count <= |rows|
    ensures ReadRows(count, EncodeRows(rows) + rest) == Some(rows[..count])
  {
    hide EncodeRow, ReadRow;
    if count > 0 {
      var tail := EncodeRows(rows[1..]) + rest;
      assert EncodeRows(rows) + rest == EncodeRow(rows[0]) + tail;
      ReadRowOfEncoded(rows[0], tail);
      ReadRowsOfEncoded(rows[1..], count - 1, rest);
      assert [rows[0]] + rows[1..][..count - 1] == rows[..count];
    }
  }

  lemma HeaderOfEncoded(rows: seq<Row>, more: seq<byte>)
    ensures var body := EncodeBody(rows) + more;
            && |body| >= 12 && MAGIC <= body
            && Value32(body[8..]) == |rows| % U32_RANGE
            && body[12..] == EncodeRows(rows) + more
  {
    hide LittleEndian32, Value32, EncodeRows;
    var n := |rows| % U32_RANGE;
    var body := EncodeBody(rows) + more;
    LittleEndian32Value(n, EncodeRows(rows) + more);
    assert body == MAGIC + LittleEndian32(n) + (EncodeRows(rows) + more);
    assert body[8..] == LittleEndian32(n) + (EncodeRows(rows) + more);
  }

  lemma FourDigits(n: nat)
    ensures n == n % 256 + 256 * (n / 256 % 256) + 65536 * (n / 65536 % 256) + 16777216 * (n / 16777216)
  {
    var q1 := n / 256;
    var q2 := q1 / 256;
    assert n / 65536 == q2 && n / 16777216 == q2 / 256;
  }

  lemma LittleEndian32Value(n: nat, more: seq<byte>)
    requires n < U32_RANGE
    ensures |LittleEndian32(n)| == 4 && Value32(LittleEndian32(n) + more) == n
  {
    FourDigits(n);
    var first := LittleEndian32(n);
    var b0: int, b1: int, b2: int, b3: int := first[0], first[1], first[2], first[3];
    assert n == b0 + 256 * b1 + 65536 * b2 + 16777216 * b3;
  }

  /** Decoding what was stored, with anything appended to it, gives the first rows, as many as the
      32-bit count says. */
  lemma DecodeEncoded(rows: seq<Row>, more: seq<byte>)
    ensures DecodeBody(EncodeBody(rows) + more) == Some(rows[..|rows| % U32_RANGE])
  {
    hide EncodeBody;
    HeaderOfEncoded(rows, more);
    ReadRowsOfEncoded(rows, |rows| % U32_RANGE, more);
  }

  /** A stored list is read back exactly when its length fits the count field. */
  lemma RoundTrip(rows: seq<Row>)
    ensures DecodeBody(EncodeBody(rows)) == Some(rows) <==> |rows| < U32_RANGE
  {
    hide EncodeBody, DecodeBody;
    DecodeEncoded(rows, []);
    assert EncodeBody(rows) + [] == EncodeBody(rows);
    assert |rows| < U32_RANGE ==> rows[..|rows| % U32_RANGE] == rows;
  }

  // ----- Truncation -----

  lemma TruncatedRow(row: Row, k: nat)
    requires k < |EncodeRow(row)|
    ensures ReadRow(EncodeRow(row)[..k]).None?
  {
  }

  lemma {:induction false} TruncatedRows(rows: seq<Row>, k: nat)
    requires k < |EncodeRows(rows)|
    ensures ReadRows(|rows|, EncodeRows(rows)[..k]).None?
  {
    hide EncodeRow, ReadRow;
    var first := EncodeRow(rows[0]);
    var all := EncodeRows(rows);
    if k < |first| {
      TruncatedRow(rows[0], k);
      assert all[..k] == first[..k];
    } else {
      ReadRowOfEncoded(rows[0], EncodeRows(rows[1..])[..k - |first|]);
      assert all[..k] == first + EncodeRows(rows[1..])[..k - |first|];
      TruncatedRows(rows[1..], k - |first|);
    }
  }

  /** A stored body cut short anywhere is refused. */
  lemma TruncatedBody(rows: seq<Row>, k: nat)
    requires |rows| < U32_RANGE && k < |EncodeBody(rows)|
    ensures DecodeBody(EncodeBody(rows)[..k]).None?
  {
    hide EncodeBody;
    var body := EncodeBody(rows);
    HeaderOfEncoded(rows, []);
    assert body + [] == body && EncodeRows(rows) + [] == EncodeRows(rows);
    if k >= 12 {
      var cut := body[..k];
      assert cut[8..][0] == body[8..][0] && cut[8..][1] == body[8..][1]
          && cut[8..][2] == body[8..][2] && cut[8..][3] == body[8..][3];
      assert cut[12..] == EncodeRows(rows)[..k - 12];
      TruncatedRows(rows, k - 12);
    }
  }

  // ----- What is accepted -----

  function RowSize(row: Row): nat {
    if row.protocol.Some? && row.protocol.value.Connect? then 9 else 7
  }

  /** Bytes that stand for a row: its own encoding, or, for an untyped row, the same bytes with a code
      that names no protocol. */
  predicate Denotes(bs: seq<byte>, row: Row) {
    || bs == EncodeRow(row)
    || (row.protocol.None? && |bs| == 7 && bs[..6] == EncodeRow(row)[..6] && bs[6] > CONNECT_CODE)
  }

  /** `bs` is one stretch of bytes for each of `rows`, in order, and anything behind them. */
  predicate HoldsRows(bs: seq<byte>, rows: seq<Row>) {
    rows == []
    || (var n := RowSize(rows[0]); n <= |bs| && Denotes(bs[..n], rows[0]) && HoldsRows(bs[n..], rows[1..]))
  }

  lemma ProtocolOfCode(code: byte)
    ensures code != 0 && code < CONNECT_CODE ==>
              && ProtocolFromCode(code).Some? && !ProtocolFromCode(code).value.Connect?
              && ProtocolCode(ProtocolFromCode(code)) == Some(code)
    ensures code >= CONNECT_CODE ==> ProtocolFromCode(code).None?
  {
  }

  lemma LittleEndian16Value(bs: seq<byte>)
    requires |bs| >= 2
    ensures LittleEndian16(Value16(bs)) == bs[..2]
  {
  }

  lemma ReadRowDenotes(bs: seq<byte>)
    requires ReadRow(bs).Some?
    ensures var (row, rest) := ReadRow(bs).value;
            RowSize(row) <= |bs| && rest == bs[RowSize(row)..] && Denotes(bs[..RowSize(row)], row)
  {
    hide ProtocolFromCode, ProtocolCode, Value16, LittleEndian16;
    var (row, rest) := ReadRow(bs).value;
    ProtocolOfCode(bs[6]);
    LittleEndian16Value(bs[4..]);
    assert bs[4..][..2] == [bs[4], bs[5]];
    if bs[6] == CONNECT_CODE {
      LittleEndian16Value(bs[7..]);
      assert bs[7..][..2] == [bs[7], bs[8]];
      assert bs[..9] == EncodeRow(row);
    } else if bs[6] < CONNECT_CODE {
      assert bs[..7] == EncodeRow(row);
    }
  }

  lemma DenotedIsRead(bs: seq<byte>, row: Row)
    requires RowSize(row) <= |bs| && Denotes(bs[..RowSize(row)], row)
    ensures ReadRow(bs) == Some((row, bs[RowSize(row)..]))
  {
    hide ProtocolFromCode, ProtocolCode, Value16, LittleEndian16;
    var n := RowSize(row);
    assert bs == bs[..n] + bs[n..];
    if bs[..n] == EncodeRow(row) {
      ReadRowOfEncoded(row, bs[n..]);
    } else {
      ProtocolOfCode(bs[6]);
      var own := EncodeRow(row) + bs[7..];
      ReadRowOfEncoded(row, bs[7..]);
      assert own[..6] == EncodeRow(row)[..6] == bs[..7][..6] == bs[..6];
      LittleEndian16Value(bs[4..]);
      LittleEndian16Value(own[4..]);
      SameFields(bs, own);
    }
  }

  lemma SameFields(bs: seq<byte>, own: seq<byte>)
    requires |bs| >= 7 && |own| >= 7 && bs[..6] == own[..6]
    ensures bs[0] == own[0] && bs[1] == own[1] && bs[2] == own[2] && bs[3] == own[3]
    ensures Value16(bs[4..]) == Value16(own[4..])
  {
    assert forall i :: 0 <= i < 6 ==> bs[..6][i] == bs[i] && own[..6][i] == own[i];
  }

  lemma {:induction false} ReadRowsHolds(rows: seq<Row>, bs: seq<byte>)
    ensures ReadRows(|rows|, bs) == Some(rows) <==> HoldsRows(bs, rows)
    decreases |rows|
  {
    hide ReadRow, Denotes, RowSize;
    if rows != [] {
      if ReadRows(|rows|, bs) == Some(rows) {
        ReadRowDenotes(bs);
        var (row, rest) := ReadRow(bs).value;
        assert [row] + ReadRows(|rows| - 1, rest).value == rows;
        ReadRowsHolds(rows[1..], rest);
      }
      if HoldsRows(bs, rows) {
        DenotedIsRead(bs, rows[0]);
        ReadRowsHolds(rows[1..], bs[RowSize(rows[0])..]);
        assert [rows[0]] + rows[1..] == rows;
      }
    }
  }

  lemma {:induction false} ReadRowsCount(count: nat, bs: seq<byte>)
    ensures ReadRows(count, bs).Some? ==> |ReadRows(count, bs).value| == count
  {
    hide ReadRow;
    if count > 0 && ReadRow(bs).Some? {
      ReadRowsCount(count - 1, ReadRow(bs).value.1);
    }
  }

  /** A file decodes to a list exactly when it is the magic, the list's length, and bytes for each
      row; bytes behind the last row do not matter. */
  lemma DecodesExactly(body: seq<byte>, rows: seq<Row>)
    ensures DecodeBody(body) == Some(rows)
       <==> |body| >= 12 && body[..8] == MAGIC && Value32(body[8..]) == |rows| && HoldsRows(body[12..], rows)
  {
    hide ReadRows, HoldsRows, Value32;
    if |body| >= 12 {
      ReadRowsHolds(rows, body[12..]);
      ReadRowsCount(Value32(body[8..]), body[12..]);
    }
  }

  // ----- The bytes of a file -----

  /** A row on disk: address, port with the low byte first, and a code from 0 to 11, the last with a port
      of its own. */
  lemma RowBytes(row: Row)
    ensures EncodeRow(row)
         == [row.ip.a, row.ip.b, row.ip.c, row.ip.d, row.port % 256, row.port / 256]
            + match row.protocol
              case None => [0]
              case Some(Http(Elite)) => [1]
              case Some(Http(Transparent)) => [2]
              case Some(Http(Anonymous)) => [3]
              case Some(Http(Unknown)) => [4]
              case Some(Https(Elite)) => [5]
              case Some(Https(Transparent)) => [6]
              case Some(Https(Anonymous)) => [7]
              case Some(Https(Unknown)) => [8]
              case Some(Socks4) => [9]
              case Some(Socks5) => [10]
              case Some(Connect(port)) => [11, port % 256, port / 256]
  {
    assert row.protocol.Some? && row.protocol.value.Connect? ==>
             [CONNECT_CODE] + LittleEndian16(row.protocol.value.port)
             == [11, row.protocol.value.port % 256, row.protocol.value.port / 256];
  }

  /** A file: the letters FLXPCW02, the low 32 bits of the number of rows with the lowest byte first, and
      the rows. */
  lemma FileBytes(rows: seq<Row>)
    ensures var n := |rows| % 0x1_0000_0000;
            EncodeBody(rows)
            == ['F' as int, 'L' as int, 'X' as int, 'P' as int, 'C' as int, 'W' as int, '0' as int, '2' as int]
               + [n % 256, n / 256 % 256, n / 65536 % 256, n / 16777216] + EncodeRows(rows)
    ensures rows != [] ==> EncodeRows(rows) == EncodeRow(rows[0]) + EncodeRows(rows[1..])
  {
    hide EncodeRow;
  }
}
