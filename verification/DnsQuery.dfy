/** The DNS query `src/resolver.rs` sends, in the wire form of RFC 1035. */
module DnsQuery {
  import opened Wrappers

  const HEADER_LEN := 12
  const QUESTION_TAIL_LEN := 4
  const MAX_NAME_LEN := 255
  const MAX_LABEL_LEN := 63
  const BUFFER_LEN := HEADER_LEN + MAX_NAME_LEN + QUESTION_TAIL_LEN
  const FLAGS: u16 := 0x0100
  const CLASS_IN: u16 := 1
  const DOT: byte := 0x2E

  function BigEndian16(n: u16): seq<byte> {
    [n / 256, n % 256]
  }

  // ----- Names -----

  function FirstDot(s: seq<byte>): (i: nat)
    ensures i <= |s| && DOT !in s[..i] && (i < |s| ==> s[i] == DOT)
  {
    if s == [] || s[0] == DOT then 0 else 1 + FirstDot(s[1..])
  }

  /** `domain.split('.')`. */
  function Labels(domain: seq<byte>): (labels: seq<seq<byte>>)
    ensures labels != []
  {
    var i := FirstDot(domain);
    if i == |domain| then [domain] else [domain[..i]] + Labels(domain[i + 1..])
  }

  function Dotted(labels: seq<seq<byte>>): seq<byte> {
    if labels == [] then []
    else if |labels| == 1 then labels[0]
    else labels[0] + [DOT] + Dotted(labels[1..])
  }

  lemma {:induction false} DottedLabels(domain: seq<byte>)
    ensures Dotted(Labels(domain)) == domain
  {
    var i := FirstDot(domain);
    if i < |domain| {
      DottedLabels(domain[i + 1..]);
      assert Labels(domain)[1..] == Labels(domain[i + 1..]);
    }
  }

  predicate Sized(labels: seq<seq<byte>>) {
    forall l | l in labels :: 1 <= |l| <= MAX_LABEL_LEN
  }

  function LabelBytes(labels: seq<seq<byte>>): seq<byte>
    requires Sized(labels)
  {
    if labels == [] then [] else [|labels[0]|] + labels[0] + LabelBytes(labels[1..])
  }

  /** Section 2.3.4 of RFC 1035: labels of 1 to 63 octets, names of at most 255. */
  predicate EncodableName(labels: seq<seq<byte>>) {
    Sized(labels) && |LabelBytes(labels)| + 1 <= MAX_NAME_LEN
  }

  lemma {:induction false} LabelBytesAppend(labels: seq<seq<byte>>, last: seq<byte>)
    requires Sized(labels) && 1 <= |last| <= MAX_LABEL_LEN
    ensures Sized(labels + [last])
    ensures LabelBytes(labels + [last]) == LabelBytes(labels) + ([|last|] + last)
  {
    if labels == [] {
      assert labels + [last] == [last];
      assert LabelBytes([last]) == [|last|] + last + LabelBytes([]);
    } else {
      LabelBytesAppend(labels[1..], last);
      assert (labels + [last])[0] == labels[0] && (labels + [last])[1..] == labels[1..] + [last];
    }
  }

  lemma {:induction false} LabelBytesGrow(labels: seq<seq<byte>>, k: nat)
    requires k <= |labels| && Sized(labels)
    ensures |LabelBytes(labels[..k])| <= |LabelBytes(labels)|
    decreases |labels| - k
  {
    if k < |labels| {
      LabelBytesGrow(labels, k + 1);
      LabelBytesAppend(labels[..k], labels[k]);
      assert labels[..k] + [labels[k]] == labels[..k + 1];
    } else {
      assert labels[..k] == labels;
    }
  }

  // ----- The query -----

  function QueryHead(queryId: u16, reserved: seq<byte>): seq<byte> {
    BigEndian16(queryId) + BigEndian16(FLAGS) + BigEndian16(1) + reserved
  }

  /** Header (section 4.1.1), name, type and class (section 4.1.2). `reserved` is what the buffer
      held where the other three counts go. */
  function Query(labels: seq<seq<byte>>, qtype: u16, queryId: u16, reserved: seq<byte>): seq<byte>
    requires Sized(labels)
  {
    QueryHead(queryId, reserved) + LabelBytes(labels) + [0] + BigEndian16(qtype) + BigEndian16(CLASS_IN)
  }

  /** Writes behind what is already written; `before` is what the buffer held at first. */
  method Put(out: array<byte>, at: nat, bytes: seq<byte>, ghost written: seq<byte>, ghost before: seq<byte>)
    requires at + |bytes| <= out.Length == |before| && |written| == at
    requires out[..] == written + before[at..]
    modifies out
    ensures out[..] == written + bytes + before[at + |bytes|..]
  {
    assert out[..at] == written && out[at..] == before[at..];
    forall i | 0 <= i < |bytes| {
      out[at + i] := bytes[i];
    }
    assert out[..at] == written && out[at..at + |bytes|] == bytes;
    assert out[at + |bytes|..] == before[at + |bytes|..];
    assert out[..] == out[..at] + out[at..at + |bytes|] + out[at + |bytes|..];
  }

  method PutLabel(out: array<byte>, at: nat, name: seq<byte>, ghost written: seq<byte>, ghost before: seq<byte>)
    requires 1 <= |name| <= MAX_LABEL_LEN
    requires at + 1 + |name| <= out.Length == |before| && |written| == at
    requires out[..] == written + before[at..]
    modifies out
    ensures out[..] == written + ([|name|] + name) + before[at + 1 + |name|..]
  {
    Put(out, at, [|name|], written, before);
    Put(out, at + 1, name, written + [|name|], before);
    assert written + [|name|] + name == written + ([|name|] + name);
  }

  method PutTail(out: array<byte>, at: nat, qtype: u16, ghost written: seq<byte>, ghost before: seq<byte>)
    requires at + 1 + QUESTION_TAIL_LEN <= out.Length == |before| && |written| == at
    requires out[..] == written + before[at..]
    modifies out
    ensures out[..] == written + [0] + BigEndian16(qtype) + BigEndian16(CLASS_IN) + before[at + 5..]
  {
    Put(out, at, [0], written, before);
    Put(out, at + 1, BigEndian16(qtype), written + [0], before);
    Put(out, at + 3, BigEndian16(CLASS_IN), written + [0] + BigEndian16(qtype), before);
  }

  method PutHead(out: array<byte>, queryId: u16, ghost before: seq<byte>)
    requires out.Length == |before| == BUFFER_LEN && out[..] == before
    modifies out
    ensures out[..] == QueryHead(queryId, before[6..12]) + before[12..]
    ensures |QueryHead(queryId, before[6..12])| == HEADER_LEN
  {
    hide BigEndian16, QueryHead;
    Lengths();
    assert out[..] == [] + before[0..];
    Put(out, 0, BigEndian16(queryId), [], before);
    assert [] + BigEndian16(queryId) == BigEndian16(queryId);
    Put(out, 2, BigEndian16(FLAGS), BigEndian16(queryId), before);
    Put(out, 4, BigEndian16(1), BigEndian16(queryId) + BigEndian16(FLAGS), before);
    HeadThenRest(queryId, before);
  }

  /** The first `n` labels make an encodable name and the first `n + 1` do not. */
  predicate StopsAt(labels: seq<seq<byte>>, n: nat) {
    n < |labels| && EncodableName(labels[..n]) && !EncodableName(labels[..n + 1])
  }

  /** `build_dns_query`: succeeds exactly on the names section 2.3.4 allows, writes the query at the
      front of the buffer and leaves everything behind it alone. A failed build leaves the header and
      the labels up to the one it failed on. */
  method BuildQuery(domain: seq<byte>, qtype: u16, queryId: u16, out: array<byte>) returns (length: Option<nat>)
    requires out.Length == BUFFER_LEN
    modifies out
    ensures length.Some? <==> EncodableName(Labels(domain))
    ensures length.Some? ==>
              && length.value == |Query(Labels(domain), qtype, queryId, old(out[6..12]))| <= BUFFER_LEN
              && out[..] == Query(Labels(domain), qtype, queryId, old(out[6..12])) + old(out[length.value..])
    ensures length.None? ==>
              exists n: nat :: StopsAt(Labels(domain), n)
                && var written := QueryHead(queryId, old(out[6..12])) + LabelBytes(Labels(domain)[..n]);
                   |written| <= BUFFER_LEN && out[..] == written + old(out[|written|..])
  {
    hide Labels, LabelBytes, BigEndian16, QueryHead, Sized, StopsAt;
    Lengths();
    ghost var before := out[..];
    ghost var head := QueryHead(queryId, before[6..12]);
    PutHead(out, queryId, before);
    var labels := Labels(domain);
    var len := HEADER_LEN;
    assert labels[..0] == [];
    for i := 0 to |labels|
      invariant Sized(labels[..i])
      invariant len == HEADER_LEN + |LabelBytes(labels[..i])| <= BUFFER_LEN - 1 - QUESTION_TAIL_LEN
      invariant out[..] == head + LabelBytes(labels[..i]) + before[len..]
    {
      var name := labels[i];
      if name == [] {
        StopsOnLabel(labels, i);
        return None;
      }
      if |name| > MAX_LABEL_LEN {
        StopsOnLabel(labels, i);
        return None;
      }
      ghost var written := LabelBytes(labels[..i]);
      var end := len + 1 + |name|;
      if end + 1 + QUESTION_TAIL_LEN > out.Length {
        StopsOnLabel(labels, i);
        return None;
      }
      LabelBytesAppend(labels[..i], name);
      assert labels[..i] + [name] == labels[..i + 1];
      PutLabel(out, len, name, head + written, before);
      assert head + written + ([|name|] + name) == head + (written + ([|name|] + name));
      len := end;
    }
    assert labels[..|labels|] == labels;
    PutTail(out, len, qtype, head + LabelBytes(labels), before);
    len := len + 1;
    return Some(len + QUESTION_TAIL_LEN);
  }

  lemma Lengths()
    ensures forall n: u16 :: |BigEndian16(n)| == 2
    ensures Sized([]) && LabelBytes([]) == []
  {
  }

  /** A label that is empty, too long, or makes the name too long ends the build. */
  lemma StopsOnLabel(labels: seq<seq<byte>>, i: nat)
    requires i < |labels| && EncodableName(labels[..i])
    requires || labels[i] == [] || |labels[i]| > MAX_LABEL_LEN
             || |LabelBytes(labels[..i])| + 1 + |labels[i]| + 1 > MAX_NAME_LEN
    ensures StopsAt(labels, i) && !EncodableName(labels)
  {
    hide LabelBytes, Sized;
    assert labels[..i] + [labels[i]] == labels[..i + 1] && labels[..i + 1][i] == labels[i];
    if Sized(labels[..i + 1]) {
      SizedMember(labels[..i + 1], i);
      LabelBytesAppend(labels[..i], labels[i]);
    }
    if Sized(labels) {
      SizedMember(labels, i);
      LabelBytesAppend(labels[..i], labels[i]);
      LabelBytesGrow(labels, i + 1);
    }
  }

  lemma SizedMember(labels: seq<seq<byte>>, i: nat)
    requires i < |labels| && Sized(labels)
    ensures 1 <= |labels[i]| <= MAX_LABEL_LEN
  {
  }

  lemma HeadThenRest(queryId: u16, before: seq<byte>)
    requires |before| == BUFFER_LEN
    ensures |QueryHead(queryId, before[6..12])| == HEADER_LEN
    ensures BigEndian16(queryId) + BigEndian16(FLAGS) + BigEndian16(1) + before[6..]
         == QueryHead(queryId, before[6..12]) + before[12..]
  {
    assert before[6..] == before[6..12] + before[12..];
  }
}
