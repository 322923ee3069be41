/** The replies the local DNS proxy builds itself: mobile/src/dns_proxy.rs (section 4.1 of RFC 1035). */
module Dns {
  import opened Base

  const DNS_HEADER_LEN: nat := 12
  const DNS_TYPE_AAAA: U16 := 28

  datatype DnsError = Truncated | NoQuestion | NameTruncated | Compressed | NameTooLong | NoType

  datatype Question = Question(qtype: U16, endOffset: nat)

  datatype QueryKind = Aaaa | Other(qtype: U16)

  // ================================================================ bits

  /** `&` on the `n` low bits. */
  function AndBits(a: nat, b: nat, n: nat): (x: nat)
    ensures x < Pow2(n)
  {
    if n == 0 then 0 else (if a % 2 == 1 && b % 2 == 1 then 1 else 0) + 2 * AndBits(a / 2, b / 2, n - 1)
  }

  lemma {:induction false} BitOfAnd(a: nat, b: nat, n: nat, i: nat)
    requires i < n
    ensures Bit(AndBits(a, b, n), i) == if Bit(a, i) == 1 && Bit(b, i) == 1 then 1 else 0
  {
    if i > 0 {
      BitOfAnd(a / 2, b / 2, n - 1, i - 1);
    }
  }

  lemma {:induction false} BitOfOr(a: nat, b: nat, n: nat, i: nat)
    requires i < n
    ensures Bit(OrBits(a, b, n), i) == if Bit(a, i) == 1 || Bit(b, i) == 1 then 1 else 0
  {
    if i > 0 {
      BitOfOr(a / 2, b / 2, n - 1, i - 1);
    }
  }

  /** A number below 2^width has no bit at or above `width`. */
  lemma {:induction false} HighBitsZero(n: nat, width: nat, i: nat)
    requires n < Pow2(width) && i >= width
    ensures Bit(n, i) == 0
  {
    if width > 0 {
      HighBitsZero(n / 2, width - 1, i - 1);
    } else if i > 0 {
      HighBitsZero(0, 0, i - 1);
    }
  }

  lemma {:induction false} Pow2Of16()
    ensures Pow2(16) == 0x1_0000 && Pow2(4) == 16
  {
    assert Pow2(4) == 16 && Pow2(8) == 16 * Pow2(4);
    assert Pow2(12) == 16 * Pow2(8) && Pow2(16) == 16 * Pow2(12);
  }

  function And16(a: U16, b: U16): U16 {
    Pow2Of16();
    AndBits(a, b, 16)
  }

  function Or16(a: U16, b: U16): U16 {
    Pow2Of16();
    OrBits(a, b, 16)
  }

  // ================================================================ parsing

  /** The end of the name that begins at `offset`: length-prefixed labels up to an empty one. */
  function NameEnd(packet: seq<Byte>, offset: nat): (r: Result<nat, DnsError>)
    ensures r.Ok? ==> offset < r.value <= |packet|
    decreases |packet| - offset
  {
    if offset >= |packet| then Err(NameTruncated)
    else if packet[offset] >= 0x40 then Err(Compressed)
    else if packet[offset] == 0 then Ok(offset + 1)
    else if offset + 1 + packet[offset] > |packet| then Err(NameTooLong)
    else NameEnd(packet, offset + 1 + packet[offset])
  }

  function Word(packet: seq<Byte>, at: nat): U16
    requires at + 2 <= |packet|
  {
    (packet[at] as int) * 256 + packet[at + 1] as int
  }

  /** The first question of a packet. */
  function FirstQuestion(packet: seq<Byte>): (r: Result<Question, DnsError>)
    ensures r.Ok? ==> DNS_HEADER_LEN + 5 <= r.value.endOffset <= |packet|
  {
    if |packet| < DNS_HEADER_LEN then Err(Truncated)
    else if Word(packet, 4) == 0 then Err(NoQuestion)
    else
      match NameEnd(packet, DNS_HEADER_LEN)
      case Err(e) => Err(e)
      case Ok(offset) =>
        if offset + 4 > |packet| then Err(NoType) else Ok(Question(Word(packet, offset), offset + 4))
  }

  /** `first_question`. */
  method ParseFirstQuestion(packet: seq<Byte>) returns (r: Result<Question, DnsError>)
    ensures r == FirstQuestion(packet)
  {
    if |packet| < DNS_HEADER_LEN {
      return Err(Truncated);
    }
    if Word(packet, 4) == 0 {
      return Err(NoQuestion);
    }
    var offset := DNS_HEADER_LEN;
    while true
      invariant offset <= |packet|
      invariant NameEnd(packet, offset) == NameEnd(packet, DNS_HEADER_LEN)
      decreases |packet| - offset
    {
      if offset >= |packet| {
        return Err(NameTruncated);
      }
      var labelLen := packet[offset];
      if labelLen >= 0x40 {
        return Err(Compressed);
      }
      if labelLen == 0 {
        offset := offset + 1;
        break;
      }
      if offset + 1 + labelLen > |packet| {
        return Err(NameTooLong);
      }
      offset := offset + 1 + labelLen;
    }
    if offset + 4 > |packet| {
      return Err(NoType);
    }
    return Ok(Question(Word(packet, offset), offset + 4));
  }

  /** `classify_dns_query`. */
  function Classify(packet: seq<Byte>): Result<QueryKind, DnsError> {
    match FirstQuestion(packet)
    case Err(e) => Err(e)
    case Ok(q) => Ok(if q.qtype == DNS_TYPE_AAAA then Aaaa else Other(q.qtype))
  }

  // ---------------------------------------------------------------- what a question looks like

  /** The labels of a name are 1 to 63 bytes long. */
  predicate GoodLabels(labels: seq<seq<Byte>>) {
    forall i | 0 <= i < |labels| :: 1 <= |labels[i]| <= 63
  }

  /** A name on the wire: every label behind its length, then a zero (section 3.1 of RFC 1035). */
  function RenderName(labels: seq<seq<Byte>>): seq<Byte>
    requires GoodLabels(labels)
  {
    if labels == [] then [0] else [|labels[0]|] + labels[0] + RenderName(labels[1..])
  }

  /** A packet with a question: header, name, type, class, and whatever follows. */
  function RenderQuery(header: seq<Byte>, labels: seq<seq<Byte>>, qtype: U16, qclass: U16, tail: seq<Byte>): seq<Byte>
    requires GoodLabels(labels)
  {
    header + RenderName(labels) + [qtype / 256, qtype % 256] + [qclass / 256, qclass % 256] + tail
  }

  /** A name is read to its end, whatever comes before and after it. */
  lemma {:induction false} NameRendered(front: seq<Byte>, labels: seq<seq<Byte>>, back: seq<Byte>)
    requires GoodLabels(labels)
    ensures NameEnd(front + RenderName(labels) + back, |front|) == Ok(|front| + |RenderName(labels)|)
    decreases |labels|
  {
    var packet := front + RenderName(labels) + back;
    if labels == [] {
      assert packet[|front|] == 0;
    } else {
      var head := [|labels[0]|] + labels[0];
      NameRendered(front + head, labels[1..], back);
      assert packet == front + head + RenderName(labels[1..]) + back;
      assert packet[|front|] == |labels[0]|;
    }
  }

  /**
   * A packet with a header that announces a question, a name, a type and a class parses to exactly that type
   * and the offset behind the class, and is an AAAA query if and only if the type is 28.
   */
  lemma {:induction false} QuestionParses(header: seq<Byte>, labels: seq<seq<Byte>>, qtype: U16, qclass: U16,
                                          tail: seq<Byte>)
    requires |header| == 12 && (header[4] != 0 || header[5] != 0) && GoodLabels(labels)
    ensures
      var packet := RenderQuery(header, labels, qtype, qclass, tail);
      && FirstQuestion(packet) == Ok(Question(qtype, 12 + |RenderName(labels)| + 4))
      && Classify(packet) == Ok(if qtype == 28 then Aaaa else Other(qtype))
  {
    var packet := RenderQuery(header, labels, qtype, qclass, tail);
    var back := [qtype / 256, qtype % 256] + [qclass / 256, qclass % 256] + tail;
    assert packet == header + RenderName(labels) + back;
    NameRendered(header, labels, back);
    var offset := 12 + |RenderName(labels)|;
    assert packet[4] == header[4] && packet[5] == header[5];
    assert packet[offset] == back[0] && packet[offset + 1] == back[1];
  }

  /** The labels of a name that was read. */
  lemma {:induction false} NameParsed(packet: seq<Byte>, offset: nat) returns (labels: seq<seq<Byte>>)
    requires NameEnd(packet, offset).Ok?
    ensures GoodLabels(labels) && packet[offset..NameEnd(packet, offset).value] == RenderName(labels)
    decreases |packet| - offset
  {
    var end := NameEnd(packet, offset).value;
    if packet[offset] == 0 {
      labels := [];
    } else {
      var next := offset + 1 + packet[offset];
      var rest := NameParsed(packet, next);
      labels := [packet[offset + 1..next]] + rest;
      assert labels[1..] == rest;
      assert packet[offset..end] == [packet[offset]] + packet[offset + 1..next] + packet[next..end];
    }
  }

  /** And only such packets parse. */
  lemma {:induction false} QuestionParsed(packet: seq<Byte>)
    returns (labels: seq<seq<Byte>>, qtype: U16, qclass: U16, tail: seq<Byte>)
    requires FirstQuestion(packet).Ok?
    ensures |packet| >= 12 && (packet[4] != 0 || packet[5] != 0) && GoodLabels(labels)
    ensures packet == RenderQuery(packet[..12], labels, qtype, qclass, tail)
  {
    labels := NameParsed(packet, 12);
    var offset := NameEnd(packet, 12).value;
    qtype, qclass, tail := Word(packet, offset), Word(packet, offset + 2), packet[offset + 4..];
    assert packet[offset..offset + 2] == [qtype / 256, qtype % 256];
    assert packet[offset + 2..offset + 4] == [qclass / 256, qclass % 256];
    assert packet == packet[..12] + packet[12..offset] + packet[offset..offset + 2] + packet[offset + 2..offset + 4]
                     + packet[offset + 4..];
  }

  // ================================================================ replying

  /** The flags of a reply: response and recursion available, what is kept of the query's, and the code. */
  function ReplyFlags(flags: U16, rcode: U16): U16 {
    Or16(Or16(Or16(Or16(0x8000, 0x0080), And16(flags, 0x7900)), And16(flags, 0x0130)), rcode)
  }

  /** `build_dns_response_with_rcode`: the query up to its first question, patched in place. */
  method BuildResponse(query: seq<Byte>, rcode: U16) returns (r: Result<seq<Byte>, DnsError>)
    ensures r == Reply(query, rcode)
  {
    var question := ParseFirstQuestion(query);
    if question.Err? {
      return Err(question.error);
    }
    var end := question.value.endOffset;
    var response := new Byte[end](i requires 0 <= i < |query| => query[i]);
    assert response[..] == query[..end];
    PatchHeader(response, ReplyFlags(Word(query, 2), rcode));
    return Ok(response[..]);
  }

  /** Overwriting the flags and clearing the last three counts. */
  method PatchHeader(response: array<Byte>, flags: U16)
    requires response.Length >= DNS_HEADER_LEN
    modifies response
    ensures response[..] == Patched(old(response[..]), flags)
  {
    response[2], response[3] := flags / 256, flags % 256;
    response[6], response[7] := 0, 0;
    response[8], response[9] := 0, 0;
    response[10], response[11] := 0, 0;
  }

  /** A packet with new flags and no records besides its questions. */
  function Patched(packet: seq<Byte>, flags: U16): (s: seq<Byte>)
    ensures |s| == |packet|
  {
    seq(|packet|, i requires 0 <= i < |packet| =>
      if i == 2 then flags / 256 else if i == 3 then flags % 256 else if 6 <= i < DNS_HEADER_LEN then 0 else packet[i])
  }

  function Reply(query: seq<Byte>, rcode: U16): Result<seq<Byte>, DnsError> {
    match FirstQuestion(query)
    case Err(e) => Err(e)
    case Ok(q) => Ok(Patched(query[..q.endOffset], ReplyFlags(Word(query, 2), rcode)))
  }

  /** A name is read the same from any packet that agrees up to where it ends. */
  lemma {:induction false} NameEndDepends(a: seq<Byte>, b: seq<Byte>, offset: nat)
    requires NameEnd(a, offset).Ok? && NameEnd(a, offset).value <= |b|
    requires forall i | offset <= i < NameEnd(a, offset).value :: a[i] == b[i]
    ensures NameEnd(b, offset) == NameEnd(a, offset)
    decreases |a| - offset
  {
    if a[offset] != 0 {
      NameEndDepends(a, b, offset + 1 + a[offset]);
    }
  }

  lemma {:induction false} PatchedReparses(query: seq<Byte>, flags: U16)
    requires FirstQuestion(query).Ok?
    ensures
      var r := Patched(query[..FirstQuestion(query).value.endOffset], flags);
      && FirstQuestion(r) == FirstQuestion(query)
      && r[DNS_HEADER_LEN..] == query[DNS_HEADER_LEN..|r|]
  {
    var r := Patched(query[..FirstQuestion(query).value.endOffset], flags);
    assert r[4] == query[4] && r[5] == query[5];
    NameEndDepends(query, r, DNS_HEADER_LEN);
  }

  /** The reply to a query re-parses to the same question, and is exactly the header and that question. */
  lemma {:induction false} ReplyReparses(query: seq<Byte>, rcode: U16)
    requires FirstQuestion(query).Ok?
    ensures
      var r := Reply(query, rcode);
      && r.Ok?
      && FirstQuestion(r.value) == FirstQuestion(query)
      && Classify(r.value) == Classify(query)
      && |r.value| == FirstQuestion(query).value.endOffset
      && r.value[DNS_HEADER_LEN..] == query[DNS_HEADER_LEN..|r.value|]
  {
    PatchedReparses(query, ReplyFlags(Word(query, 2), rcode));
  }

  lemma {:induction false} ReplyBit(flags: U16, rcode: U16, i: nat)
    requires i < 16
    ensures Bit(ReplyFlags(flags, rcode), i) ==
            if Bit(0x8000, i) == 1 || Bit(0x0080, i) == 1
               || (Bit(flags, i) == 1 && (Bit(0x7900, i) == 1 || Bit(0x0130, i) == 1)) || Bit(rcode, i) == 1
            then 1 else 0
  {
    var kept, also := And16(flags, 0x7900), And16(flags, 0x0130);
    var fixed := Or16(0x8000, 0x0080);
    BitOfOr(0x8000, 0x0080, 16, i);
    BitOfAnd(flags, 0x7900, 16, i);
    BitOfAnd(flags, 0x0130, 16, i);
    BitOfOr(fixed, kept, 16, i);
    BitOfOr(Or16(fixed, kept), also, 16, i);
    BitOfOr(Or16(Or16(fixed, kept), also), rcode, 16, i);
  }

  /** Which bits the constants have. */
  lemma {:induction false} MaskBits(i: nat)
    requires i < 16
    ensures Bit(0x8000, i) == if i == 15 then 1 else 0
    ensures Bit(0x0080, i) == if i == 7 then 1 else 0
    ensures Bit(0x7900, i) == if 11 <= i <= 14 || i == 8 then 1 else 0
    ensures Bit(0x0130, i) == if i == 8 || i == 5 || i == 4 then 1 else 0
  {
    ResponseBit(i);
    AvailableBit(i);
    QueryBits(i);
    DnssecBits(i);
  }

  lemma {:induction false} ShiftLeft(n: nat, k: nat, i: nat)
    ensures Bit(n * Pow2(k), i) == if i < k then 0 else Bit(n, i - k)
  {
    if k > 0 {
      assert n * Pow2(k) == 2 * (n * Pow2(k - 1));
      if i > 0 {
        ShiftLeft(n, k - 1, i - 1);
      }
    }
  }

  lemma {:induction false} ResponseBit(i: nat)
    requires i < 16
    ensures Bit(0x8000, i) == if i == 15 then 1 else 0
  {
    ShiftLeft(1, 15, i);
    assert Pow2(8) == 0x100 && Pow2(15) == 0x80 * Pow2(8);
    if i == 15 {
      assert Bit(1, 0) == 1;
    }
  }

  lemma {:induction false} AvailableBit(i: nat)
    requires i < 16
    ensures Bit(0x0080, i) == if i == 7 then 1 else 0
  {
    assert Pow2(7) == 0x80 && Pow2(1) == 2;
    ShiftLeft(1, 7, i);
    if i > 7 {
      HighBitsZero(1, 1, i - 7);
    }
  }

  lemma {:induction false} QueryBits(i: nat)
    requires i < 16
    ensures Bit(0x7900, i) == if 11 <= i <= 14 || i == 8 then 1 else 0
  {
    ShiftLeft(0x79, 8, i);
    assert Pow2(8) == 0x100;
    assert Bit(0x79, 0) == 1 && Bit(0x79, 1) == 0 && Bit(0x79, 2) == 0 && Bit(0x79, 3) == 1;
    assert Bit(0x79, 4) == 1 && Bit(0x79, 5) == 1 && Bit(0x79, 6) == 1 && Bit(0x79, 7) == 0;
  }

  lemma {:induction false} DnssecBits(i: nat)
    requires i < 16
    ensures Bit(0x0130, i) == if i == 8 || i == 5 || i == 4 then 1 else 0
  {
    assert Pow2(4) == 0x10 && Pow2(5) == 0x20;
    ShiftLeft(0x13, 4, i);
    if i >= 9 {
      HighBitsZero(0x13, 5, i - 4);
    }
    assert Bit(0x13, 0) == 1 && Bit(0x13, 1) == 1 && Bit(0x13, 2) == 0 && Bit(0x13, 3) == 0 && Bit(0x13, 4) == 1;
  }

  /**
   * Every bit of the reply's flags, for a response code below 16: response (15) and recursion available
   * (7) are set; opcode (11-14), recursion desired (8), authentic data (5) and checking disabled (4) are
   * the query's; the low four bits are the code; all others are clear.
   */
  lemma {:induction false} ReplyFlagBits(flags: U16, rcode: U16, i: nat)
    requires rcode < 16 && i < 16
    ensures Bit(ReplyFlags(flags, rcode), i) ==
            if i == 15 || i == 7 then 1
            else if 11 <= i <= 14 || i == 8 || i == 5 || i == 4 then Bit(flags, i)
            else if i < 4 then Bit(rcode, i)
            else 0
  {
    ReplyBit(flags, rcode, i);
    MaskBits(i);
    BitIsBit(flags, i);
    BitIsBit(rcode, i);
    if i >= 4 {
      Pow2Of16();
      HighBitsZero(rcode, 4, i);
    }
  }

  /** The number of questions a packet holds from `offset` to its end, if it holds nothing else. */
  function Questions(packet: seq<Byte>, offset: nat): Option<nat>
    requires offset <= |packet|
    decreases |packet| - offset
  {
    if offset == |packet| then Some(0)
    else
      match NameEnd(packet, offset)
      case Err(_) => None
      case Ok(end) =>
        if end + 4 > |packet| then None
        else
          var more := Questions(packet, end + 4);
          if more.Some? then Some(more.value + 1) else None
  }

  /**
   * The header of a reply: same id and question count, the flags above, no other records. It holds one
   * question, so that it announces what it holds if and only if the query announced one.
   */
  lemma {:induction false} ReplyHeader(query: seq<Byte>, rcode: U16)
    requires FirstQuestion(query).Ok?
    ensures
      var r := Reply(query, rcode).value;
      && Word(r, 0) == Word(query, 0)
      && Word(r, 2) == ReplyFlags(Word(query, 2), rcode)
      && Word(r, 4) == Word(query, 4)
      && Word(r, 6) == 0 && Word(r, 8) == 0 && Word(r, 10) == 0
      && Questions(r, DNS_HEADER_LEN) == Some(1)
      && (Questions(r, DNS_HEADER_LEN) == Some(Word(r, 4)) <==> Word(query, 4) == 1)
  {
    ReplyReparses(query, rcode);
    var r := Reply(query, rcode).value;
    assert FirstQuestion(r).value.endOffset == |r|;
    assert Questions(r, |r|) == Some(0);
  }
}
