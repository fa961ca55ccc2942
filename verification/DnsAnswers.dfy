/** Reading DNS responses, `src/resolver.rs`: the walkers over raw bytes, and the proof that on the
    wire form of a response (section 4.1 of RFC 1035) they find the first matching record. */
module DnsAnswers {
  import opened Wrappers
  import opened DnsQuery
  import Utf8
  import Text

  const ANSWER_FIXED_LEN := 10
  const TYPE_A: u16 := 1
  const TYPE_TXT: u16 := 16

  function Read16(m: seq<byte>, i: nat): u16
    requires i + 2 <= |m|
  {
    var high: int, low: int := m[i], m[i + 1];
    high * 256 + low
  }

  // ----- What the walkers compute, on any bytes -----

  /** Behind the name at `offset`; a byte with both top bits set ends the name with a pointer. */
  function SkipName(m: seq<byte>, offset: nat): (r: Option<nat>)
    ensures r.Some? ==> offset < r.value <= |m| + 1
    decreases |m| - offset
  {
    if offset >= |m| then None
    else if m[offset] >= 0xC0 then Some(offset + 2)
    else if m[offset] == 0 then Some(offset + 1)
    else SkipName(m, offset + 1 + m[offset])
  }

  predicate HeaderAccepted(m: seq<byte>, queryId: u16) {
    && |m| >= HEADER_LEN
    && Read16(m, 0) == queryId
    && Read16(m, 2) / 0x8000 % 2 == 1
    && Read16(m, 2) / 0x0200 % 2 == 0
    && Read16(m, 2) % 16 == 0
  }

  function SkipQuestions(m: seq<byte>, offset: nat, count: nat): (r: Option<nat>)
    requires offset <= |m|
    ensures r.Some? ==> offset <= r.value <= |m|
    decreases count
  {
    if count == 0 then Some(offset)
    else
      var behind :- SkipName(m, offset);
      if behind + QUESTION_TAIL_LEN > |m| then None
      else SkipQuestions(m, behind + QUESTION_TAIL_LEN, count - 1)
  }

  /** Where the answers start, and how many the header announces. */
  function AnswersStart(m: seq<byte>, queryId: u16): (r: Option<(nat, nat)>)
    ensures r.Some? ==> r.value.0 <= |m|
  {
    if !HeaderAccepted(m, queryId) then None
    else
      var offset :- SkipQuestions(m, HEADER_LEN, Read16(m, 4));
      Some((offset, Read16(m, 6)))
  }

  /** The fixed part of a resource record and the extent of its data. */
  datatype Slot = Slot(rtype: u16, data: nat, end: nat)

  function ReadSlot(m: seq<byte>, offset: nat): (r: Option<Slot>)
    ensures r.Some? ==> offset < r.value.data <= r.value.end <= |m|
  {
    var fixed :- SkipName(m, offset);
    if fixed + ANSWER_FIXED_LEN > |m| then None
    else
      var data := fixed + ANSWER_FIXED_LEN;
      var end := data + Read16(m, fixed + 8);
      if end > |m| then None else Some(Slot(Read16(m, fixed), data, end))
  }

  function FindA(m: seq<byte>, offset: nat, count: nat): Option<Ipv4>
    decreases count
  {
    if count == 0 then None
    else
      var slot :- ReadSlot(m, offset);
      if slot.rtype == TYPE_A && slot.end - slot.data == 4
      then Some(Ipv4(m[slot.data], m[slot.data + 1], m[slot.data + 2], m[slot.data + 3]))
      else FindA(m, slot.end, count - 1)
  }

  /** The first character-string of the first TXT record that holds a whole one. */
  function FindTxt(m: seq<byte>, offset: nat, count: nat): Option<seq<byte>>
    decreases count
  {
    if count == 0 then None
    else
      var slot :- ReadSlot(m, offset);
      if slot.rtype == TYPE_TXT && slot.data < slot.end && slot.data + 1 + m[slot.data] <= slot.end
      then Some(m[slot.data + 1..slot.data + 1 + m[slot.data]])
      else FindTxt(m, slot.end, count - 1)
  }

  /** The text must be UTF-8, and `parseIp` must accept it once trimmed. */
  function IpInText(bytes: seq<byte>, parseIp: string -> Option<string>): Option<string> {
    var text :- Utf8.Decode(bytes);
    parseIp(Text.Trim(text))
  }

  // ----- The walkers -----

  method SkipDnsName(m: seq<byte>, start: nat) returns (behind: Option<nat>)
    ensures behind == SkipName(m, start)
  {
    var offset := start;
    while true
      invariant SkipName(m, offset) == SkipName(m, start)
      decreases |m| - offset
    {
      if offset >= |m| {
        return None;
      }
      var length := m[offset];
      if length / 64 == 3 {
        return Some(offset + 2);
      }
      if length == 0 {
        return Some(offset + 1);
      }
      offset := offset + 1 + length;
    }
  }

  /** `answers_offset`. */
  method AnswersOffset(m: seq<byte>, queryId: u16) returns (start: Option<(nat, nat)>)
    ensures start == AnswersStart(m, queryId)
  {
    if |m| < HEADER_LEN {
      return None;
    }
    if Read16(m, 0) != queryId {
      return None;
    }
    var flags := Read16(m, 2);
    if flags / 0x8000 % 2 == 0 {
      return None;
    }
    if flags / 0x0200 % 2 != 0 {
      return None;
    }
    if flags % 16 != 0 {
      return None;
    }
    var questions, answers := Read16(m, 4), Read16(m, 6);
    var offset: nat := HEADER_LEN;
    for i := 0 to questions
      invariant offset <= |m|
      invariant SkipQuestions(m, offset, questions - i) == SkipQuestions(m, HEADER_LEN, questions)
    {
      var behind := SkipDnsName(m, offset);
      if behind.None? {
        return None;
      }
      offset := behind.value + QUESTION_TAIL_LEN;
      if offset > |m| {
        return None;
      }
    }
    return Some((offset, answers));
  }

  /** `parse_dns_a_response`, which repeats the header and question walk of `answers_offset`. */
  method ParseAResponse(m: seq<byte>, queryId: u16) returns (ip: Option<Ipv4>)
    ensures ip == match AnswersStart(m, queryId)
                  case None => None
                  case Some((offset, count)) => FindA(m, offset, count)
  {
    hide Read16, SkipName;
    if |m| < HEADER_LEN {
      return None;
    }
    if Read16(m, 0) != queryId {
      return None;
    }
    var flags := Read16(m, 2);
    if flags / 0x8000 % 2 == 0 {
      return None;
    }
    if flags / 0x0200 % 2 != 0 {
      return None;
    }
    if flags % 16 != 0 {
      return None;
    }
    var questions, answers := Read16(m, 4), Read16(m, 6);
    var offset: nat := HEADER_LEN;
    for i := 0 to questions
      invariant offset <= |m|
      invariant SkipQuestions(m, offset, questions - i) == SkipQuestions(m, HEADER_LEN, questions)
    {
      var behind := SkipDnsName(m, offset);
      if behind.None? {
        return None;
      }
      offset := behind.value + QUESTION_TAIL_LEN;
      if offset > |m| {
        return None;
      }
    }
    ghost var start := offset;
    for i := 0 to answers
      invariant FindA(m, offset, answers - i) == FindA(m, start, answers)
    {
      var behind := SkipDnsName(m, offset);
      if behind.None? || behind.value + ANSWER_FIXED_LEN > |m| {
        return None;
      }
      var recordType, rdlength := Read16(m, behind.value), Read16(m, behind.value + 8);
      var rdata := behind.value + ANSWER_FIXED_LEN;
      var rdataEnd := rdata + rdlength;
      if rdataEnd > |m| {
        return None;
      }
      if recordType == TYPE_A && rdlength == 4 {
        return Some(Ipv4(m[rdata], m[rdata + 1], m[rdata + 2], m[rdata + 3]));
      }
      offset := rdataEnd;
    }
    return None;
  }

  /** `parse_dns_txt_response`; `parseIp` is the library's address parser followed by its printer. */
  method ParseTxtResponse(m: seq<byte>, queryId: u16, parseIp: string -> Option<string>) returns (ip: Option<string>)
    ensures ip == match AnswersStart(m, queryId)
                  case None => None
                  case Some((offset, count)) =>
                    match FindTxt(m, offset, count)
                    case None => None
                    case Some(bytes) => IpInText(bytes, parseIp)
  {
    hide Read16, SkipName, AnswersStart, IpInText, FindTxt, ReadSlot;
    var start := AnswersOffset(m, queryId);
    if start.None? {
      return None;
    }
    var offset: nat, answers: nat := start.value.0, start.value.1;
    for i := 0 to answers
      invariant FindTxt(m, offset, answers - i) == FindTxt(m, start.value.0, answers)
    {
      SlotStep(m, offset);
      FindTxtStep(m, offset, answers - i);
      var behind := SkipDnsName(m, offset);
      if behind.None? || behind.value + ANSWER_FIXED_LEN > |m| {
        return None;
      }
      var recordType, rdlength := Read16(m, behind.value), Read16(m, behind.value + 8);
      var rdata := behind.value + ANSWER_FIXED_LEN;
      var rdataEnd := rdata + rdlength;
      if rdataEnd > |m| {
        return None;
      }
      if recordType == TYPE_TXT && rdlength >= 1 {
        var textLen := m[rdata];
        var textEnd := rdata + 1 + textLen;
        if textEnd <= rdataEnd {
          return IpInText(m[rdata + 1..textEnd], parseIp);
        }
      }
      offset := rdataEnd;
    }
    FindNothing(m, offset);
    return None;
  }

  lemma SlotStep(m: seq<byte>, offset: nat)
    ensures match SkipName(m, offset)
            case None => ReadSlot(m, offset).None?
            case Some(fixed) =>
              if fixed + ANSWER_FIXED_LEN > |m| then ReadSlot(m, offset).None?
              else
                var data := fixed + ANSWER_FIXED_LEN;
                var end := data + Read16(m, fixed + 8);
                ReadSlot(m, offset) == if end > |m| then None else Some(Slot(Read16(m, fixed), data, end))
  {
  }

  lemma FindTxtStep(m: seq<byte>, offset: nat, count: nat)
    requires count > 0
    ensures match ReadSlot(m, offset)
            case None => FindTxt(m, offset, count).None?
            case Some(slot) =>
              FindTxt(m, offset, count)
              == if slot.rtype == TYPE_TXT && slot.data < slot.end && slot.data + 1 + m[slot.data] <= slot.end
                 then Some(m[slot.data + 1..slot.data + 1 + m[slot.data]])
                 else FindTxt(m, slot.end, count - 1)
  {
  }

  lemma FindNothing(m: seq<byte>, offset: nat)
    ensures FindTxt(m, offset, 0).None?
  {
  }

  // ----- Responses and their wire form -----

  /** Section 4.1.4: labels ending in the root or in a pointer to earlier labels. */
  datatype Name = Name(labels: seq<seq<byte>>, end: NameEnd)

  datatype NameEnd = Root | Pointer(target: nat)

  datatype Question = Question(name: Name, qtype: u16, qclass: u16)

  datatype Record = Record(name: Name, rtype: u16, rclass: u16, ttl: nat, rdata: seq<byte>)

  /** Section 4.1.1. */
  datatype Flags = Flags(qr: bool, opcode: nat, aa: bool, tc: bool, rd: bool, ra: bool, z: nat, rcode: nat)

  datatype Response = Response(id: u16, flags: Flags, questions: seq<Question>, answers: seq<Record>,
                               authorityCount: u16, additionalCount: u16, remainder: seq<byte>)

  predicate ValidName(name: Name) {
    && Sized(name.labels)
    && (name.end.Pointer? ==> name.end.target < 0x4000)
  }

  predicate ValidRecord(r: Record) {
    ValidName(r.name) && r.ttl < 0x1_0000_0000 && |r.rdata| < 0x1_0000
  }

  predicate ValidResponse(r: Response) {
    && r.flags.opcode < 16 && r.flags.z < 8 && r.flags.rcode < 16
    && |r.questions| < 0x1_0000 && |r.answers| < 0x1_0000
    && (forall q | q in r.questions :: ValidName(q.name))
    && (forall a | a in r.answers :: ValidRecord(a))
  }

  function Bit(b: bool): nat {
    if b then 1 else 0
  }

  function FlagsWord(f: Flags): u16
    requires f.opcode < 16 && f.z < 8 && f.rcode < 16
  {
    Bit(f.qr) * 0x8000 + f.opcode * 0x0800 + Bit(f.aa) * 0x0400 + Bit(f.tc) * 0x0200
    + Bit(f.rd) * 0x0100 + Bit(f.ra) * 0x0080 + f.z * 0x0010 + f.rcode
  }

  function NameEndBytes(end: NameEnd): seq<byte>
    requires end.Pointer? ==> end.target < 0x4000
  {
    match end case Root => [0] case Pointer(target) => [0xC0 + target / 256, target % 256]
  }

  function NameBytes(name: Name): seq<byte>
    requires ValidName(name)
  {
    LabelBytes(name.labels) + NameEndBytes(name.end)
  }

  function QuestionBytes(q: Question): seq<byte>
    requires ValidName(q.name)
  {
    NameBytes(q.name) + (BigEndian16(q.qtype) + BigEndian16(q.qclass))
  }

  function QuestionsBytes(qs: seq<Question>): seq<byte>
    requires forall q | q in qs :: ValidName(q.name)
  {
    if qs == [] then [] else QuestionBytes(qs[0]) + QuestionsBytes(qs[1..])
  }

  function FixedBytes(r: Record): seq<byte>
    requires ValidRecord(r)
  {
    BigEndian16(r.rtype) + BigEndian16(r.rclass)
    + BigEndian16(r.ttl / 0x1_0000) + BigEndian16(r.ttl % 0x1_0000) + BigEndian16(|r.rdata|)
  }

  function RecordBytes(r: Record): seq<byte>
    requires ValidRecord(r)
  {
    NameBytes(r.name) + (FixedBytes(r) + r.rdata)
  }

  function RecordsBytes(rs: seq<Record>): seq<byte>
    requires forall r | r in rs :: ValidRecord(r)
  {
    if rs == [] then [] else RecordBytes(rs[0]) + RecordsBytes(rs[1..])
  }

  function HeaderBytes(r: Response): seq<byte>
    requires ValidResponse(r)
  {
    BigEndian16(r.id) + BigEndian16(FlagsWord(r.flags))
    + BigEndian16(|r.questions|) + BigEndian16(|r.answers|)
    + BigEndian16(r.authorityCount) + BigEndian16(r.additionalCount)
  }

  function Wire(r: Response): seq<byte>
    requires ValidResponse(r)
  {
    HeaderBytes(r) + QuestionsBytes(r.questions) + RecordsBytes(r.answers) + r.remainder
  }

  /** The first A record that carries an IPv4 address. */
  function FirstAddress(answers: seq<Record>): Option<Ipv4> {
    if answers == [] then None
    else
      var r := answers[0];
      if r.rtype == TYPE_A && |r.rdata| == 4
      then Some(Ipv4(r.rdata[0], r.rdata[1], r.rdata[2], r.rdata[3]))
      else FirstAddress(answers[1..])
  }

  /** The first character-string (section 3.3.14) of the first TXT record with a whole one. */
  function FirstText(answers: seq<Record>): Option<seq<byte>> {
    if answers == [] then None
    else
      var r := answers[0];
      if r.rtype == TYPE_TXT && r.rdata != [] && 1 + r.rdata[0] <= |r.rdata|
      then Some(r.rdata[1..1 + r.rdata[0]])
      else FirstText(answers[1..])
  }

  // ----- Walking the wire form -----

  lemma Read16At(before: seq<byte>, n: u16, after: seq<byte>)
    ensures Read16(before + BigEndian16(n) + after, |before|) == n
  {
    var m := before + BigEndian16(n) + after;
    assert m[|before|] == n / 256 && m[|before| + 1] == n % 256;
  }

  lemma SkipNameStep(m: seq<byte>, offset: nat)
    requires offset < |m| && 1 <= m[offset] < 0xC0
    ensures SkipName(m, offset) == SkipName(m, offset + 1 + m[offset])
  {
  }

  lemma {:induction false} SkipNameAt(before: seq<byte>, name: Name, after: seq<byte>)
    requires ValidName(name)
    ensures SkipName(before + NameBytes(name) + after, |before|) == Some(|before| + |NameBytes(name)|)
    decreases |name.labels|
  {
    hide LabelBytes, Sized, NameEndBytes, SkipName;
    var m := before + NameBytes(name) + after;
    Lengths();
    if name.labels == [] {
      NameEndAt(before, name.end, after);
      assert NameBytes(name) == NameEndBytes(name.end);
    } else {
      FirstLabel(name.labels);
      var first := name.labels[0];
      var rest := name.(labels := name.labels[1..]);
      var front := [|first|] + first;
      Assoc(front, LabelBytes(rest.labels), NameEndBytes(name.end));
      Assoc(before, front, NameBytes(rest));
      Assoc(before + front, NameBytes(rest), after);
      LabelAt(before, first, NameBytes(rest) + after);
      SkipNameStep(m, |before|);
      SkipNameAt(before + front, rest, after);
    }
  }

  lemma NameEndAt(before: seq<byte>, end: NameEnd, after: seq<byte>)
    requires end.Pointer? ==> end.target < 0x4000
    ensures SkipName(before + NameEndBytes(end) + after, |before|) == Some(|before| + |NameEndBytes(end)|)
  {
    assert (before + NameEndBytes(end) + after)[|before|] == NameEndBytes(end)[0];
  }

  lemma {:induction false} SkipQuestionsAt(before: seq<byte>, qs: seq<Question>, after: seq<byte>)
    requires forall q | q in qs :: ValidName(q.name)
    ensures SkipQuestions(before + QuestionsBytes(qs) + after, |before|, |qs|)
         == Some(|before| + |QuestionsBytes(qs)|)
    decreases |qs|
  {
    hide NameBytes, QuestionBytes, QuestionsBytes, SkipName;
    QuestionThenQuestions(before, qs, after);
    if qs != [] {
      var rest := QuestionsBytes(qs[1..]) + after;
      SkipNameAt(before, qs[0].name, BigEndian16(qs[0].qtype) + BigEndian16(qs[0].qclass) + rest);
      SkipQuestionsAt(before + QuestionBytes(qs[0]), qs[1..], after);
    }
  }

  lemma QuestionThenQuestions(before: seq<byte>, qs: seq<Question>, after: seq<byte>)
    requires forall q | q in qs :: ValidName(q.name)
    ensures qs == [] ==> QuestionsBytes(qs) == []
    ensures qs != [] ==>
              && |QuestionBytes(qs[0])| == |NameBytes(qs[0].name)| + QUESTION_TAIL_LEN
              && |QuestionsBytes(qs)| == |QuestionBytes(qs[0])| + |QuestionsBytes(qs[1..])|
              && before + QuestionsBytes(qs) + after
                 == before + QuestionBytes(qs[0]) + QuestionsBytes(qs[1..]) + after
                 == before + NameBytes(qs[0].name)
                    + (BigEndian16(qs[0].qtype) + BigEndian16(qs[0].qclass) + (QuestionsBytes(qs[1..]) + after))
  {
    hide NameBytes, BigEndian16;
    Lengths();
    if qs != [] {
      var name, rest := NameBytes(qs[0].name), QuestionsBytes(qs[1..]);
      var tail := BigEndian16(qs[0].qtype) + BigEndian16(qs[0].qclass);
      Assoc(before, name + tail, rest);
      Assoc(before, name, tail);
      Assoc(before + name + tail, rest, after);
      Assoc(before + name, tail, rest + after);
    }
  }

  lemma ReadSlotAt(before: seq<byte>, r: Record, after: seq<byte>)
    requires ValidRecord(r)
    ensures var m := before + RecordBytes(r) + after;
            var data := |before| + |NameBytes(r.name)| + ANSWER_FIXED_LEN;
            && ReadSlot(m, |before|) == Some(Slot(r.rtype, data, data + |r.rdata|))
            && data + |r.rdata| == |before| + |RecordBytes(r)| <= |m|
            && m[data..data + |r.rdata|] == r.rdata
  {
    hide NameBytes, FixedBytes, SkipName, Read16;
    var m := before + RecordBytes(r) + after;
    var p := before + NameBytes(r.name);
    var fixed := FixedBytes(r);
    var behind := r.rdata + after;
    assert m == p + (fixed + behind);
    SkipNameAt(before, r.name, fixed + behind);
    assert m == p + fixed + behind;
    FixedAt(p, r, behind);
    var data := |p| + ANSWER_FIXED_LEN;
    assert m[data..] == behind;
    assert m[data..data + |r.rdata|] == behind[..|r.rdata|];
  }

  lemma FixedAt(before: seq<byte>, r: Record, after: seq<byte>)
    requires ValidRecord(r)
    ensures var m := before + FixedBytes(r) + after;
            && |FixedBytes(r)| == ANSWER_FIXED_LEN
            && Read16(m, |before|) == r.rtype
            && Read16(m, |before| + 8) == |r.rdata|
  {
    hide BigEndian16, Read16;
    Lengths();
    var middle := BigEndian16(r.rclass) + BigEndian16(r.ttl / 0x1_0000) + BigEndian16(r.ttl % 0x1_0000);
    var last := BigEndian16(|r.rdata|);
    var m := before + FixedBytes(r) + after;
    assert FixedBytes(r) == BigEndian16(r.rtype) + (middle + last);
    assert m == before + BigEndian16(r.rtype) + (middle + last + after);
    Read16At(before, r.rtype, middle + last + after);
    assert m == before + BigEndian16(r.rtype) + middle + last + after;
    Read16At(before + BigEndian16(r.rtype) + middle, |r.rdata|, after);
  }

  lemma RecordThenRecords(before: seq<byte>, rs: seq<Record>, after: seq<byte>)
    requires rs != [] && forall r | r in rs :: ValidRecord(r)
    ensures before + RecordsBytes(rs) + after
         == before + RecordBytes(rs[0]) + (RecordsBytes(rs[1..]) + after)
         == before + RecordBytes(rs[0]) + RecordsBytes(rs[1..]) + after
  {
    hide RecordBytes;
  }

  lemma {:induction false} FindAAt(before: seq<byte>, rs: seq<Record>, after: seq<byte>)
    requires forall r | r in rs :: ValidRecord(r)
    ensures FindA(before + RecordsBytes(rs) + after, |before|, |rs|) == FirstAddress(rs)
    decreases |rs|
  {
    hide RecordBytes, RecordsBytes, NameBytes, ReadSlot;
    if rs != [] {
      var m := before + RecordsBytes(rs) + after;
      var r := rs[0];
      assert r in rs;
      RecordThenRecords(before, rs, after);
      ReadSlotAt(before, r, RecordsBytes(rs[1..]) + after);
      if r.rtype == TYPE_A && |r.rdata| == 4 {
        var data := |before| + |NameBytes(r.name)| + ANSWER_FIXED_LEN;
        var read := m[data..data + 4];
        assert m[data] == read[0] && m[data + 1] == read[1] && m[data + 2] == read[2] && m[data + 3] == read[3];
      } else {
        FindAAt(before + RecordBytes(r), rs[1..], after);
      }
    }
  }

  lemma Subslice(m: seq<byte>, from: nat, to: nat, i: nat, j: nat)
    requires from <= to <= |m| && i <= j <= to - from
    ensures m[from..to][i..j] == m[from + i..from + j]
  {
    var left, right := m[from..to][i..j], m[from + i..from + j];
    assert |left| == |right|;
    forall k | 0 <= k < j - i ensures left[k] == right[k] {
      assert left[k] == m[from..to][i + k];
    }
  }

  lemma FirstTextStep(rs: seq<Record>)
    ensures rs == [] ==> FirstText(rs).None?
    ensures rs != [] ==>
              var r := rs[0];
              FirstText(rs) == if r.rtype == TYPE_TXT && r.rdata != [] && 1 + r.rdata[0] <= |r.rdata|
                               then Some(r.rdata[1..1 + r.rdata[0]]) else FirstText(rs[1..])
  {
  }

  /** The text of a record that holds a whole one, read from the message. */
  lemma TextAt(m: seq<byte>, data: nat, r: Record)
    requires data + |r.rdata| <= |m| && m[data..data + |r.rdata|] == r.rdata
    ensures r.rdata != [] ==> m[data] == r.rdata[0]
    ensures r.rdata != [] && 1 + r.rdata[0] <= |r.rdata| ==>
              m[data + 1..data + 1 + r.rdata[0]] == r.rdata[1..1 + r.rdata[0]]
  {
    var read := m[data..data + |r.rdata|];
    assert r.rdata != [] ==> m[data] == read[0];
    if r.rdata != [] && 1 + r.rdata[0] <= |r.rdata| {
      var length: int := r.rdata[0];
      Subslice(m, data, data + |r.rdata|, 1, 1 + length);
    }
  }

  lemma {:induction false} FindTxtAt(before: seq<byte>, rs: seq<Record>, after: seq<byte>)
    requires forall r | r in rs :: ValidRecord(r)
    ensures FindTxt(before + RecordsBytes(rs) + after, |before|, |rs|) == FirstText(rs)
    decreases |rs|
  {
    hide RecordBytes, RecordsBytes, NameBytes, ReadSlot, FindTxt, FirstText;
    var m := before + RecordsBytes(rs) + after;
    FirstTextStep(rs);
    if rs == [] {
      FindNothing(m, |before|);
    } else {
      var r := rs[0];
      assert r in rs;
      RecordThenRecords(before, rs, after);
      ReadSlotAt(before, r, RecordsBytes(rs[1..]) + after);
      FindTxtStep(m, |before|, |rs|);
      TextAt(m, |before| + |NameBytes(r.name)| + ANSWER_FIXED_LEN, r);
      if !(r.rtype == TYPE_TXT && r.rdata != [] && 1 + r.rdata[0] <= |r.rdata|) {
        FindTxtAt(before + RecordBytes(r), rs[1..], after);
      }
    }
  }

  lemma FlagsRead(f: Flags)
    requires f.opcode < 16 && f.z < 8 && f.rcode < 16
    ensures var w := FlagsWord(f);
            && w / 0x8000 % 2 == Bit(f.qr)
            && w / 0x0200 % 2 == Bit(f.tc)
            && w % 16 == f.rcode
  {
    var low := Bit(f.rd) * 0x0100 + Bit(f.ra) * 0x0080 + f.z * 0x0010 + f.rcode;
    var mid := f.opcode * 4 + Bit(f.aa) * 2 + Bit(f.tc);
    assert FlagsWord(f) == Bit(f.qr) * 0x8000 + mid * 0x0200 + low;
    assert FlagsWord(f) == (Bit(f.qr) * 0x0800 + f.opcode * 0x0080 + Bit(f.aa) * 0x0040 + Bit(f.tc) * 0x0020
                            + Bit(f.rd) * 0x0010 + Bit(f.ra) * 0x0008 + f.z) * 16 + f.rcode;
    assert FlagsWord(f) / 0x0200 == Bit(f.qr) * 64 + mid;
  }

  lemma HeaderRead(r: Response, after: seq<byte>)
    requires ValidResponse(r)
    ensures var m := HeaderBytes(r) + after;
            && |HeaderBytes(r)| == HEADER_LEN
            && Read16(m, 0) == r.id && Read16(m, 2) == FlagsWord(r.flags)
            && Read16(m, 4) == |r.questions| && Read16(m, 6) == |r.answers|
  {
    hide FlagsWord;
    var m := HeaderBytes(r) + after;
    var id, word := r.id, FlagsWord(r.flags);
    var q: u16, a: u16 := |r.questions|, |r.answers|;
    assert m[0] == id / 256 && m[1] == id % 256 && m[2] == word / 256 && m[3] == word % 256;
    assert m[4] == q / 256 && m[5] == q % 256 && m[6] == a / 256 && m[7] == a % 256;
  }

  lemma AnswersStartOfWire(r: Response, queryId: u16)
    requires ValidResponse(r)
    ensures AnswersStart(Wire(r), queryId)
         == if r.id == queryId && r.flags.qr && !r.flags.tc && r.flags.rcode == 0
            then Some((HEADER_LEN + |QuestionsBytes(r.questions)|, |r.answers|)) else None
  {
    hide Read16, FlagsWord, HeaderBytes, QuestionsBytes, RecordsBytes;
    var after := QuestionsBytes(r.questions) + RecordsBytes(r.answers) + r.remainder;
    assert Wire(r) == HeaderBytes(r) + after;
    HeaderRead(r, after);
    FlagsRead(r.flags);
    assert Wire(r) == HeaderBytes(r) + QuestionsBytes(r.questions) + (RecordsBytes(r.answers) + r.remainder);
    SkipQuestionsAt(HeaderBytes(r), r.questions, RecordsBytes(r.answers) + r.remainder);
  }

  // ----- Main results -----

  /** On the wire form of any response, the walkers start at the answers and find the first matching
      record; a response that is not an untruncated, error-free answer to this query is refused. */
  lemma WireAnswers(r: Response, queryId: u16)
    requires ValidResponse(r)
    ensures var start := AnswersStart(Wire(r), queryId);
            && (start.Some? <==> r.id == queryId && r.flags.qr && !r.flags.tc && r.flags.rcode == 0)
            && (start.Some? ==>
                  && FindA(Wire(r), start.value.0, start.value.1) == FirstAddress(r.answers)
                  && FindTxt(Wire(r), start.value.0, start.value.1) == FirstText(r.answers))
  {
    hide FindA, FindTxt, AnswersStart, FlagsWord, HeaderBytes, QuestionsBytes, RecordsBytes, FirstAddress, FirstText;
    AnswersStartOfWire(r, queryId);
    HeaderRead(r, []);
    var before := HeaderBytes(r) + QuestionsBytes(r.questions);
    FindAAt(before, r.answers, r.remainder);
    FindTxtAt(before, r.answers, r.remainder);
    assert Wire(r) == before + RecordsBytes(r.answers) + r.remainder;
  }

  // ----- Reading our own query -----

  /** The labels at `offset`, up to the root. */
  function ReadLabels(m: seq<byte>, offset: nat): Option<seq<seq<byte>>>
    decreases |m| - offset
  {
    if offset >= |m| || offset + 1 + m[offset] > |m| then None
    else if m[offset] == 0 then Some([])
    else
      var rest :- ReadLabels(m, offset + 1 + m[offset]);
      Some([m[offset + 1..offset + 1 + m[offset]]] + rest)
  }

  lemma ReadLabelsStep(m: seq<byte>, offset: nat)
    requires offset < |m| && offset + 1 + m[offset] <= |m|
    ensures m[offset] == 0 ==> ReadLabels(m, offset) == Some([])
    ensures m[offset] != 0 ==>
              var next := offset + 1 + m[offset];
              ReadLabels(m, offset)
              == match ReadLabels(m, next) case None => None case Some(rest) => Some([m[offset + 1..next]] + rest)
  {
  }

  lemma {:induction false} ReadLabelsAt(before: seq<byte>, labels: seq<seq<byte>>, after: seq<byte>)
    requires Sized(labels)
    ensures ReadLabels(before + LabelBytes(labels) + [0] + after, |before|) == Some(labels)
    decreases |labels|
  {
    hide LabelBytes, Sized, ReadLabels;
    var m := before + LabelBytes(labels) + [0] + after;
    Lengths();
    if labels == [] {
      assert m == before + [0] + after;
      assert m[|before|] == 0;
      ReadLabelsStep(m, |before|);
    } else {
      var first := labels[0];
      FirstLabel(labels);
      var front, rest := [|first|] + first, LabelBytes(labels[1..]);
      Assoc(before, front, rest);
      Assoc(before + front, rest, [0]);
      Assoc(before + front, rest + [0], after);
      LabelAt(before, first, rest + [0] + after);
      ReadLabelsStep(m, |before|);
      ReadLabelsAt(before + front, labels[1..], after);
      assert [first] + labels[1..] == labels;
    }
  }

  lemma FirstLabel(labels: seq<seq<byte>>)
    requires labels != [] && Sized(labels)
    ensures 1 <= |labels[0]| <= MAX_LABEL_LEN && Sized(labels[1..])
    ensures LabelBytes(labels) == ([|labels[0]|] + labels[0]) + LabelBytes(labels[1..])
  {
  }

  lemma LabelAt(before: seq<byte>, first: seq<byte>, rest: seq<byte>)
    requires 1 <= |first| <= MAX_LABEL_LEN
    ensures var m := before + ([|first|] + first) + rest;
            && |before| + 1 + |first| <= |m| && m[|before|] == |first|
            && m[|before| + 1..|before| + 1 + |first|] == first
  {
  }

  /** A query that was built is at most 271 bytes long, its name skips exactly to the type and class,
      and reading the labels back gives the domain that was asked for. */
  lemma QueryReadsBack(domain: seq<byte>, qtype: u16, queryId: u16, reserved: seq<byte>)
    requires EncodableName(Labels(domain)) && |reserved| == 6
    ensures var m := Query(Labels(domain), qtype, queryId, reserved);
            && |m| <= BUFFER_LEN
            && SkipName(m, HEADER_LEN) == Some(|m| - QUESTION_TAIL_LEN)
            && Read16(m, |m| - 4) == qtype && Read16(m, |m| - 2) == CLASS_IN
            && ReadLabels(m, HEADER_LEN).Some?
            && Dotted(ReadLabels(m, HEADER_LEN).value) == domain
  {
    hide Labels, LabelBytes, Dotted, SkipName, ReadLabels;
    var labels := Labels(domain);
    var head := QueryHead(queryId, reserved);
    var tail := BigEndian16(qtype) + BigEndian16(CLASS_IN);
    var m := Query(labels, qtype, queryId, reserved);
    assert m == head + LabelBytes(labels) + [0] + tail;
    ReadLabelsAt(head, labels, tail);
    DottedLabels(domain);
    var name := Name(labels, Root);
    assert NameBytes(name) == LabelBytes(labels) + [0];
    assert m == head + NameBytes(name) + tail;
    SkipNameAt(head, name, tail);
    var body := head + LabelBytes(labels) + [0];
    Read16At(body, qtype, BigEndian16(CLASS_IN));
    Read16At(body + BigEndian16(qtype), CLASS_IN, []);
    assert body + BigEndian16(qtype) + BigEndian16(CLASS_IN) + [] == m;
  }

  // ----- The bytes on the wire -----

  /** A query, byte by byte: id, recursion desired, one question, the name, its type, class 1. */
  lemma QueryBytes(labels: seq<seq<byte>>, qtype: u16, queryId: u16, reserved: seq<byte>)
    requires Sized(labels) && |reserved| == 6
    ensures Query(labels, qtype, queryId, reserved)
         == [queryId / 256, queryId % 256, 1, 0, 0, 1] + reserved + LabelBytes(labels)
            + [0, qtype / 256, qtype % 256, 0, 1]
  {
    hide LabelBytes;
    assert BigEndian16(queryId) + BigEndian16(FLAGS) + BigEndian16(1) == [queryId / 256, queryId % 256, 1, 0, 0, 1];
    assert [0] + BigEndian16(qtype) + BigEndian16(CLASS_IN) == [0, qtype / 256, qtype % 256, 0, 1];
    var head := [queryId / 256, queryId % 256, 1, 0, 0, 1] + reserved + LabelBytes(labels);
    assert head + [0] + BigEndian16(qtype) + BigEndian16(CLASS_IN)
        == head + ([0] + BigEndian16(qtype) + BigEndian16(CLASS_IN));
  }

  /** Each label stands behind its length. */
  lemma LabelsOnTheWire(first: seq<byte>, labels: seq<seq<byte>>)
    requires Sized([first] + labels)
    ensures Sized(labels) && LabelBytes([first] + labels) == [|first|] + first + LabelBytes(labels)
  {
    assert ([first] + labels)[0] == first && ([first] + labels)[1..] == labels;
    assert forall l :: l in labels ==> l in [first] + labels;
  }

  /** No label holds a dot. */
  lemma {:induction false} LabelsHaveNoDot(domain: seq<byte>, i: nat, k: nat)
    requires i < |Labels(domain)| && k < |Labels(domain)[i]|
    ensures Labels(domain)[i][k] != 0x2E
  {
    hide FirstDot;
    var n := FirstDot(domain);
    assert k < n ==> domain[..n][k] == domain[k];
    if n < |domain| && i > 0 {
      LabelsHaveNoDot(domain[n + 1..], i - 1, k);
    }
  }

  lemma {:induction false} NameLength(labels: seq<seq<byte>>)
    requires labels != [] && Sized(labels)
    ensures |LabelBytes(labels)| == |Dotted(labels)| + 1
  {
    if |labels| > 1 {
      NameLength(labels[1..]);
    } else {
      assert labels[1..] == [];
    }
  }

  /** The names a query can ask for: at most 253 characters, in labels of 1 to 63. */
  lemma EncodableNames(domain: seq<byte>)
    ensures EncodableName(Labels(domain))
       <==> |domain| <= 253 && forall i :: 0 <= i < |Labels(domain)| ==> 1 <= |Labels(domain)[i]| <= 63
  {
    hide Labels, LabelBytes, Dotted;
    DottedLabels(domain);
    if forall i :: 0 <= i < |Labels(domain)| ==> 1 <= |Labels(domain)[i]| <= 63 {
      assert Sized(Labels(domain));
      NameLength(Labels(domain));
    } else {
      var i :| 0 <= i < |Labels(domain)| && !(1 <= |Labels(domain)[i]| <= 63);
      assert Labels(domain)[i] in Labels(domain);
    }
  }

  /** Which headers are accepted: at least 12 bytes, the query's id in front, QR set and TC clear in the
      third byte, and no rcode in the fourth. */
  lemma HeaderBits(m: seq<byte>, queryId: u16)
    ensures HeaderAccepted(m, queryId)
       <==> |m| >= 12 && m[0] == queryId / 256 && m[1] == queryId % 256
            && m[2] >= 128 && m[2] / 2 % 2 == 0 && m[3] % 16 == 0
  {
    if |m| >= 12 {
      var high: int, low: int := m[2], m[3];
      var word := high * 256 + low;
      assert word / 0x8000 == high / 128 && word / 0x0200 == high / 2 && word % 16 == low % 16;
    }
  }

  /** A response's header, byte by byte. */
  lemma HeaderOnTheWire(r: Response)
    requires ValidResponse(r)
    ensures var f := r.flags;
            HeaderBytes(r)
            == [r.id / 256, r.id % 256,
                Bit(f.qr) * 128 + f.opcode * 8 + Bit(f.aa) * 4 + Bit(f.tc) * 2 + Bit(f.rd),
                Bit(f.ra) * 128 + f.z * 16 + f.rcode,
                |r.questions| / 256, |r.questions| % 256, |r.answers| / 256, |r.answers| % 256,
                r.authorityCount / 256, r.authorityCount % 256, r.additionalCount / 256, r.additionalCount % 256]
  {
    var f := r.flags;
    var high := Bit(f.qr) * 128 + f.opcode * 8 + Bit(f.aa) * 4 + Bit(f.tc) * 2 + Bit(f.rd);
    var low := Bit(f.ra) * 128 + f.z * 16 + f.rcode;
    assert FlagsWord(f) == high * 256 + low && 0 <= low < 256;
  }

  /** A name ends in a zero byte or in a two-byte pointer whose top bits are set. */
  lemma NameOnTheWire(labels: seq<seq<byte>>, target: nat)
    requires Sized(labels) && target < 0x4000
    ensures NameBytes(Name(labels, Root)) == LabelBytes(labels) + [0]
    ensures NameBytes(Name(labels, Pointer(target))) == LabelBytes(labels) + [192 + target / 256, target % 256]
  {
  }

  lemma QuestionOnTheWire(q: Question)
    requires ValidName(q.name)
    ensures QuestionBytes(q)
         == NameBytes(q.name) + [q.qtype / 256, q.qtype % 256, q.qclass / 256, q.qclass % 256]
  {
    hide NameBytes;
  }

  lemma LifetimeBytes(ttl: nat)
    requires ttl < 0x1_0000_0000
    ensures ttl / 0x1_0000 / 256 == ttl / 16777216 && ttl / 0x1_0000 % 256 == ttl / 65536 % 256
    ensures ttl % 0x1_0000 / 256 == ttl / 256 % 256 && ttl % 0x1_0000 % 256 == ttl % 256
    ensures ttl / 16777216 < 256
  {
    var high, low := ttl / 0x1_0000, ttl % 0x1_0000;
    assert ttl == high * 0x1_0000 + low;
    assert ttl / 256 == high * 256 + low / 256;
  }

  /** A record: its name, type, class, four bytes of lifetime, the length of its data and the data. */
  lemma RecordOnTheWire(r: Record)
    requires ValidRecord(r)
    ensures 0 <= r.ttl / 16777216 < 256
    ensures RecordBytes(r)
         == NameBytes(r.name)
            + ([r.rtype / 256, r.rtype % 256, r.rclass / 256, r.rclass % 256,
                r.ttl / 16777216, r.ttl / 65536 % 256, r.ttl / 256 % 256, r.ttl % 256,
                |r.rdata| / 256, |r.rdata| % 256] + r.rdata)
  {
    hide NameBytes;
    LifetimeBytes(r.ttl);
    var high: u16, low: u16 := r.ttl / 0x1_0000, r.ttl % 0x1_0000;
    FixedOnTheWire(r.rtype, r.rclass, high, low, |r.rdata|);
  }

  lemma FixedOnTheWire(a: u16, b: u16, c: u16, d: u16, e: u16)
    ensures BigEndian16(a) + BigEndian16(b) + BigEndian16(c) + BigEndian16(d) + BigEndian16(e)
         == [a / 256, a % 256, b / 256, b % 256, c / 256, c % 256, d / 256, d % 256, e / 256, e % 256]
  {
  }

  /** The address found is that of the first record of type 1 with four bytes of data. */
  lemma {:induction false} FirstAddressIs(answers: seq<Record>)
    ensures FirstAddress(answers).None?
       <==> forall i :: 0 <= i < |answers| ==> !(answers[i].rtype == 1 && |answers[i].rdata| == 4)
    ensures FirstAddress(answers).Some? ==>
              var ip := FirstAddress(answers).value;
              exists i :: 0 <= i < |answers| && answers[i].rtype == 1 && answers[i].rdata == [ip.a, ip.b, ip.c, ip.d]
                && forall j :: 0 <= j < i ==> !(answers[j].rtype == 1 && |answers[j].rdata| == 4)
  {
    if answers != [] {
      var rest := answers[1..];
      FirstAddressIs(rest);
      if answers[0].rtype == 1 && |answers[0].rdata| == 4 {
        var d := answers[0].rdata;
        assert d == [d[0], d[1], d[2], d[3]];
      } else {
        assert FirstAddress(answers) == FirstAddress(rest);
        if FirstAddress(rest).Some? {
          var ip := FirstAddress(rest).value;
          var i :| 0 <= i < |rest| && rest[i].rtype == 1 && rest[i].rdata == [ip.a, ip.b, ip.c, ip.d]
            && forall j :: 0 <= j < i ==> !(rest[j].rtype == 1 && |rest[j].rdata| == 4);
          assert answers[i + 1] == rest[i];
          forall j | 0 <= j < i + 1 ensures !(answers[j].rtype == 1 && |answers[j].rdata| == 4) {
            assert j > 0 ==> answers[j] == rest[j - 1];
          }
        }
      }
    }
  }

  /** The record's data begins with a whole character-string: a length and as many bytes. */
  predicate HoldsString(r: Record) {
    r.rtype == 16 && r.rdata != [] && 1 + r.rdata[0] <= |r.rdata|
  }

  /** The text found is the character-string of the first record of type 16 that holds a whole one. */
  lemma {:induction false} FirstTextIs(answers: seq<Record>)
    ensures FirstText(answers).None? <==> forall i :: 0 <= i < |answers| ==> !HoldsString(answers[i])
    ensures FirstText(answers).Some? ==>
              var text := FirstText(answers).value;
              exists i :: 0 <= i < |answers| && HoldsString(answers[i])
                && [|text|] + text <= answers[i].rdata && forall j :: 0 <= j < i ==> !HoldsString(answers[j])
  {
    if answers != [] {
      var rest := answers[1..];
      FirstTextIs(rest);
      if HoldsString(answers[0]) {
        var d := answers[0].rdata;
        var text := FirstText(answers).value;
        assert text == d[1..1 + d[0]] && |text| == d[0];
        assert [|text|] + text == d[..1 + d[0]];
      } else {
        assert FirstText(answers) == FirstText(rest);
        if FirstText(rest).Some? {
          var text := FirstText(rest).value;
          var i :| 0 <= i < |rest| && HoldsString(rest[i]) && [|text|] + text <= rest[i].rdata
            && forall j :: 0 <= j < i ==> !HoldsString(rest[j]);
          assert answers[i + 1] == rest[i];
          forall j | 0 <= j < i + 1 ensures !HoldsString(answers[j]) {
            assert j > 0 ==> answers[j] == rest[j - 1];
          }
        }
      }
    }
  }

  /** A TXT answer is the address its text spells, outer white space aside; one that is not UTF-8 is none. */
  lemma TextAnswers(text: string, bytes: seq<byte>, parseIp: string -> Option<string>)
    ensures IpInText(Utf8.Encode(text), parseIp) == parseIp(Text.Trim(text))
    ensures Utf8.Decode(bytes).None? ==> IpInText(bytes, parseIp) == None
  {
    Utf8.DecodeEncode(text);
  }
}
