/** The streaming UTF-8 collector a provider body is read through, `src/providers/mod.rs`. */
module Collector {
  import opened Wrappers
  import opened Utf8

  function Flatten(chunks: seq<seq<byte>>): seq<byte> {
    if chunks == [] then [] else chunks[0] + Flatten(chunks[1..])
  }

  /** `bs` is the beginning of some UTF-8 text. */
  ghost predicate Promising(bs: seq<byte>) {
    exists more: seq<byte> :: Decode(bs + more).Some?
  }

  class Utf8Collector {
    var content: string
    var pending: array<byte>
    var pendingLen: nat

    /** At most three bytes are carried over, and only the beginning of one unfinished character. */
    ghost predicate Valid()
      reads this, pending
    {
      && pending.Length == 3
      && pendingLen <= 3
      && (pendingLen > 0 ==> Plausible(pending[..pendingLen]) && !StartsWithChar(pending[..pendingLen]))
    }

    ghost function Received(): seq<byte>
      reads this, pending
      requires Valid()
    {
      Encode(content) + pending[..pendingLen]
    }

    constructor ()
      ensures Valid() && fresh(pending) && Received() == []
    {
      content := "";
      pending := new byte[3](_ => 0);
      pendingLen := 0;
    }

    /** `append_utf8`: refuses exactly when no continuation of the body can be UTF-8 any more, and
        then changes nothing. */
    method AppendUtf8(bytes: seq<byte>) returns (ok: bool)
      requires Valid()
      modifies this`content, this`pendingLen, pending
      ensures Valid()
      ensures ok <==> Promising(old(Received()) + bytes)
      ensures Received() == if ok then old(Received()) + bytes else old(Received())
    {
      var buf := if pendingLen == 0 then bytes else pending[..pendingLen] + bytes;
      hide Decode, Encode, FromUtf8, Plausible, StartsWithChar, Promising;
      ghost var before := content;
      assert Encode(before) + buf == Received() + bytes;
      PromisingAfterEncoded(before, buf);
      PromisingUnlessMalformed(buf);
      match FromUtf8(buf)
      case Text(text) =>
        AbsorbWhole(before, buf);
        content := content + text;
        pendingLen := 0;
        ok := true;
      case Bad(Incomplete(validUpTo)) =>
        AbsorbPrefix(before, buf);
        var text := FromUtf8(buf[..validUpTo]).text;
        var tail := buf[validUpTo..];
        content := content + text;
        forall i | 0 <= i < |tail| {
          pending[i] := tail[i];
        }
        pendingLen := |tail|;
        ok := true;
        assert pending[..pendingLen] == tail;
      case Bad(Malformed(_)) =>
        ok := false;
    }

    /** `Write::write`. */
    method Write(bytes: seq<byte>) returns (written: Option<nat>)
      requires Valid()
      modifies this`content, this`pendingLen, pending
      ensures Valid()
      ensures written == if Promising(old(Received()) + bytes) then Some(|bytes|) else None
      ensures Received() == if written.Some? then old(Received()) + bytes else old(Received())
    {
      var ok := AppendUtf8(bytes);
      written := if ok then Some(|bytes|) else None;
    }

    method Len() returns (n: nat)
      requires Valid()
      ensures n == |Received()|
    {
      n := |Encode(content)| + pendingLen;
    }

    method Finish() returns (body: Option<string>)
      requires Valid()
      ensures body == Decode(Received())
    {
      DecodeAfterEncoded(content, pending[..pendingLen]);
      if pendingLen > 0 {
        return None;
      }
      assert content + "" == content;
      return Some(content);
    }
  }

  /** What a body of at most `maxBytes` bytes decodes to. */
  function BodyText(body: seq<byte>, maxBytes: nat): Option<string> {
    if |body| <= maxBytes then Decode(body) else None
  }

  /** The body loop of `ProxyProvider::fetch`. Whatever the chunking, the outcome is that of decoding
      the whole body at once, with bodies over the size limit refused. */
  method CollectBody(chunks: seq<seq<byte>>, maxBytes: nat) returns (body: Option<string>)
    ensures body == BodyText(Flatten(chunks), maxBytes)
  {
    hide Encode, FromUtf8, Plausible, StartsWithChar, SequenceLength, DecodeChar;
    var collector := new Utf8Collector();
    for i := 0 to |chunks|
      invariant collector.Valid() && fresh(collector) && fresh(collector.pending)
      invariant collector.Received() + Flatten(chunks[i..]) == Flatten(chunks)
      invariant |collector.Received()| <= maxBytes
    {
      ghost var before := collector.Received();
      assert before + Flatten(chunks[i..]) == before + chunks[i] + Flatten(chunks[i + 1..]);
      if chunks[i] != [] {
        var written := collector.Write(chunks[i]);
        if written.None? {
          assert Decode(before + chunks[i] + Flatten(chunks[i + 1..])).None?;
          return None;
        }
        var length := collector.Len();
        if length > maxBytes {
          return None;
        }
      }
    }
    assert collector.Received() == Flatten(chunks);
    body := collector.Finish();
  }

  // ----- Why the collector may stop early, and why it may go on -----

  lemma IncompleteIsShort(tail: seq<byte>)
    requires Plausible(tail) && !StartsWithChar(tail)
    ensures 1 <= |tail| <= 3
  {
    if |tail| >= SequenceLength(tail[0]) {
      assert tail[..SequenceLength(tail[0])] == tail;
    }
  }

  lemma AbsorbWhole(before: string, buf: seq<byte>)
    requires FromUtf8(buf).Text?
    ensures Encode(before + FromUtf8(buf).text) == Encode(before) + buf
  {
    EncodeDecode(buf);
    EncodeConcat(before, FromUtf8(buf).text);
  }

  lemma AbsorbPrefix(before: string, buf: seq<byte>)
    requires FromUtf8(buf).Bad? && FromUtf8(buf).error.Incomplete?
    ensures var n := FromUtf8(buf).error.validUpTo;
            && n <= |buf|
            && FromUtf8(buf[..n]).Text?
            && Encode(before + FromUtf8(buf[..n]).text) + buf[n..] == Encode(before) + buf
            && Plausible(buf[n..]) && !StartsWithChar(buf[n..]) && 1 <= |buf[n..]| <= 3
  {
    hide Encode, Decode, StartsWithChar, Plausible, ValidUpTo;
    var n := FromUtf8(buf).error.validUpTo;
    ValidPrefixDecodes(buf);
    AbsorbWhole(before, buf[..n]);
    IncompleteIsShort(buf[n..]);
    assert buf == buf[..n] + buf[n..];
  }

  lemma PromisingAfterEncoded(s: string, bs: seq<byte>)
    ensures Promising(Encode(s) + bs) <==> Promising(bs)
  {
    forall more: seq<byte>
      ensures Decode(Encode(s) + bs + more).Some? <==> Decode(bs + more).Some?
    {
      DecodeAfterEncoded(s, bs + more);
      assert Encode(s) + bs + more == Encode(s) + (bs + more);
    }
    if Promising(bs) {
      var more: seq<byte> :| Decode(bs + more).Some?;
      assert Decode(Encode(s) + bs + more).Some?;
    }
  }

  /** `from_utf8` calls a buffer malformed exactly when no text begins with it. */
  lemma PromisingUnlessMalformed(bs: seq<byte>)
    ensures Promising(bs) <==> !(FromUtf8(bs).Bad? && FromUtf8(bs).error.Malformed?)
  {
    var n := ValidUpTo(bs);
    var tail := bs[n..];
    ValidPrefixDecodes(bs);
    EncodeDecode(bs[..n]);
    var text := Decode(bs[..n]).value;
    assert bs == Encode(text) + tail;
    PromisingAfterEncoded(text, tail);
    if tail == [] {
      assert bs + [] == bs;
    } else if Plausible(tail) {
      var more := Completion(tail);
      CompletionDecodes(tail);
      assert Decode(tail + more).Some?;
    } else {
      forall more: seq<byte> ensures Decode(tail + more).None? {
        HopelessTail(tail, more);
      }
    }
  }

  /** Bytes that finish an unfinished character. */
  function Completion(tail: seq<byte>): seq<byte>
    requires Plausible(tail)
  {
    var second: byte := if tail[0] == 0xE0 then 0xA0 else if tail[0] == 0xF0 then 0x90 else 0x80;
    ([second, 0x80, 0x80])[|tail| - 1..SequenceLength(tail[0]) - 1]
  }

  lemma CompletionDecodes(tail: seq<byte>)
    requires Plausible(tail)
    ensures Decode(tail + Completion(tail)).Some?
  {
    var all := tail + Completion(tail);
    assert |all| == SequenceLength(all[0]);
    assert all[..|all|] == all;
    assert all[|all|..] == [];
    assert Decode([]) == Some("");
  }

  /** A body is accepted as a text exactly when it is that text's encoding and within the limit. */
  lemma AcceptsExactlyEncodings(body: seq<byte>, maxBytes: nat, s: string)
    ensures BodyText(body, maxBytes) == Some(s) <==> body == Encode(s) && |Encode(s)| <= maxBytes
  {
    DecodeEncode(s);
    if Decode(body).Some? {
      EncodeDecode(body);
    }
  }
}
