/** The wire formats of core/src/protocol/proxy.rs and their asynchronous readers in core/src/runtime_io.rs. */
module Proxy {
  import opened Base
  import Varint

  const FRAME_TYPE_TCP_REQUEST: nat := 0x401
  const MAX_ADDRESS_LENGTH: nat := 2048
  const MAX_MESSAGE_LENGTH: nat := 2048
  const MAX_PADDING_LENGTH: nat := 4096

  datatype ProtocolError =
    | UnexpectedEof
    | InvalidAddressLength
    | InvalidMessageLength
    | InvalidPaddingLength
    | UnexpectedFrameType(frameType: nat)

  /** A string whose length `varint::len` accepts; a longer one makes the program panic. */
  predicate Encodable(s: seq<Byte>) {
    |s| <= Varint.MAX_VARINT
  }

  // ================================================================ UDP messages

  datatype UdpMessage = UdpMessage(
    sessionId: U32, packetId: U16, fragId: Byte, fragCount: Byte, addr: seq<Byte>, data: seq<Byte>)
  {
    function HeaderSize(): nat
      requires Encodable(addr)
    {
      4 + 2 + 1 + 1 + Varint.Len(|addr|) + |addr|
    }

    function Size(): nat
      requires Encodable(addr)
    {
      HeaderSize() + |data|
    }

    /** The datagram: fixed header, length-prefixed address, payload to the end. */
    function Encode(): (s: seq<Byte>)
      requires Encodable(addr)
      ensures |s| == Size()
    {
      BigEndian(sessionId, 4) + BigEndian(packetId, 2) + [fragId, fragCount]
      + EncodeField(addr) + data
    }

    /** `serialize`: fill the front of `buf`, or leave it alone when it is too small. */
    method Serialize(buf: array<Byte>) returns (n: Option<nat>)
      requires Encodable(addr)
      modifies buf
      ensures buf.Length < Size() ==> n == None && buf[..] == old(buf[..])
      ensures buf.Length >= Size() ==> n == Some(Size()) && buf[..Size()] == Encode()
      ensures forall i | Size() <= i < buf.Length :: buf[i] == old(buf[i])
    {
      if buf.Length < Size() {
        return None;
      }
      var index := Append(buf, 0, BigEndian(sessionId, 4));
      index := Append(buf, index, BigEndian(packetId, 2));
      index := Append(buf, index, [fragId, fragCount]);
      assert buf[..8] == BigEndian(sessionId, 4) + BigEndian(packetId, 2) + [fragId, fragCount];
      index := AppendField(buf, index, addr);
      index := Append(buf, index, data);
      return Some(index);
    }
  }

  /** `buf[at..at + bytes.len()].copy_from_slice(bytes)` and the index that follows. */
  method Append(buf: array<Byte>, at: nat, bytes: seq<Byte>) returns (next: nat)
    requires at + |bytes| <= buf.Length
    modifies buf
    ensures next == at + |bytes|
    ensures buf[..next] == old(buf[..at]) + bytes
    ensures forall i | next <= i < buf.Length :: buf[i] == old(buf[i])
  {
    forall i | 0 <= i < |bytes| {
      buf[at + i] := bytes[i];
    }
    return at + |bytes|;
  }

  /** `index += varint::write(&mut buf[index..], value)` into a buffer that has room. */
  method AppendVarint(buf: array<Byte>, at: nat, value: nat) returns (next: nat)
    requires value <= Varint.MAX_VARINT && at + Varint.Len(value) <= buf.Length
    modifies buf
    ensures next == at + Varint.Len(value)
    ensures buf[..next] == old(buf[..at]) + Varint.Encode(value)
    ensures forall i | next <= i < buf.Length :: buf[i] == old(buf[i])
  {
    var written := Varint.Write(buf, at, value);
    next := at + written.value;
    assert buf[..next] == buf[..at] + buf[at..next];
    assert buf[..at] == old(buf[..at]);
  }

  /** `parse_udp_message`. */
  function ParseUdp(buf: seq<Byte>): (r: Result<UdpMessage, ProtocolError>)
    ensures r.Ok? ==> 1 <= |r.value.addr| <= MAX_MESSAGE_LENGTH
  {
    if |buf| < 8 then Err(UnexpectedEof)
    else
      match Varint.Decode(buf[8..])
      case Err(_) => Err(UnexpectedEof)
      case Ok((addrLen, addrLenSize)) =>
        if addrLen == 0 || addrLen > MAX_MESSAGE_LENGTH then Err(InvalidAddressLength)
        else
          var addrStart := 8 + addrLenSize;
          var addrEnd := addrStart + addrLen;
          if |buf| < addrEnd then Err(InvalidMessageLength)
          else
            FromBigEndianBound(buf[0..4]);
            FromBigEndianBound(buf[4..6]);
            Varint.PowValues();
            Ok(UdpMessage(FromBigEndian(buf[0..4]), FromBigEndian(buf[4..6]), buf[6], buf[7],
                          buf[addrStart..addrEnd], buf[addrEnd..]))
  }

  lemma {:induction false} IdsInvert(m: UdpMessage)
    ensures FromBigEndian(BigEndian(m.sessionId, 4)) == m.sessionId
    ensures FromBigEndian(BigEndian(m.packetId, 2)) == m.packetId
  {
    Varint.PowValues();
    FromBigEndianInverts(m.sessionId, 4);
    FromBigEndianInverts(m.packetId, 2);
  }

  /** A serialized message parses back to itself exactly when its address is 1 to 2048 bytes long. */
  lemma {:induction false} ParseEncode(m: UdpMessage)
    requires Encodable(m.addr)
    ensures ParseUdp(m.Encode()) ==
            if 1 <= |m.addr| <= MAX_MESSAGE_LENGTH then Ok(m) else Err(InvalidAddressLength)
  {
    EncodedFields(m);
    Varint.DecodeEncode(|m.addr|, m.addr + m.data);
    IdsInvert(m);
  }

  /** Where the fields of a serialized message are. */
  lemma {:induction false} EncodedFields(m: UdpMessage)
    requires Encodable(m.addr)
    ensures
      var s := m.Encode();
      var addrStart := 8 + Varint.Len(|m.addr|);
      && |s| == addrStart + |m.addr| + |m.data|
      && s[0..4] == BigEndian(m.sessionId, 4) && s[4..6] == BigEndian(m.packetId, 2)
      && s[6] == m.fragId && s[7] == m.fragCount
      && s[8..] == Varint.Encode(|m.addr|) + (m.addr + m.data)
      && s[addrStart..addrStart + |m.addr|] == m.addr && s[addrStart + |m.addr|..] == m.data
  {
    var front := BigEndian(m.sessionId, 4) + BigEndian(m.packetId, 2) + [m.fragId, m.fragCount];
    var s := front + Varint.Encode(|m.addr|) + m.addr + m.data;
    assert s == m.Encode();
    assert s[..8] == front;
    assert s[0..4] == front[0..4] && s[4..6] == front[4..6];
  }

  /** The text of a datagram, its address length in any width that has room for it. */
  function DatagramText(m: UdpMessage, width: nat): seq<Byte>
    requires Varint.Fits(|m.addr|, width)
  {
    BigEndian(m.sessionId, 4) + BigEndian(m.packetId, 2) + [m.fragId, m.fragCount]
    + (Varint.Wide(|m.addr|, width) + (m.addr + m.data))
  }

  lemma {:induction false} DatagramFields(m: UdpMessage, width: nat)
    requires Varint.Fits(|m.addr|, width)
    ensures
      var s, addrStart := DatagramText(m, width), 8 + width;
      && |s| == addrStart + |m.addr| + |m.data|
      && s[0..4] == BigEndian(m.sessionId, 4) && s[4..6] == BigEndian(m.packetId, 2)
      && s[6] == m.fragId && s[7] == m.fragCount
      && s[8..] == Varint.Wide(|m.addr|, width) + (m.addr + m.data)
      && s[addrStart..addrStart + |m.addr|] == m.addr && s[addrStart + |m.addr|..] == m.data
  {
    var front := BigEndian(m.sessionId, 4) + BigEndian(m.packetId, 2) + [m.fragId, m.fragCount];
    var s := front + Varint.Wide(|m.addr|, width) + m.addr + m.data;
    assert s == DatagramText(m, width);
    assert s[..8] == front;
    assert s[0..4] == front[0..4] && s[4..6] == front[4..6];
  }

  /** Every datagram text with an address of 1 to 2048 bytes is read. */
  lemma {:induction false} DatagramReads(m: UdpMessage, width: nat)
    requires Varint.Fits(|m.addr|, width) && 1 <= |m.addr| <= 2048
    ensures ParseUdp(DatagramText(m, width)) == Ok(m)
  {
    DatagramFields(m, width);
    Varint.DecodeWide(|m.addr|, width, m.addr + m.data);
    IdsInvert(m);
  }

  /** And nothing else is. */
  lemma {:induction false} DatagramRead(buf: seq<Byte>) returns (width: nat)
    requires ParseUdp(buf).Ok?
    ensures
      var m := ParseUdp(buf).value;
      1 <= |m.addr| <= 2048 && Varint.Fits(|m.addr|, width) && buf == DatagramText(m, width)
  {
    width := Varint.Decode(buf[8..]).value.1;
    var m := ParseUdp(buf).value;
    TailRead(buf);
    BigEndianInverts(buf[0..4]);
    BigEndianInverts(buf[4..6]);
    Rebuilt(buf, m, width);
  }

  lemma {:induction false} TailRead(buf: seq<Byte>)
    requires ParseUdp(buf).Ok?
    ensures
      var m, (length, width) := ParseUdp(buf).value, Varint.Decode(buf[8..]).value;
      Varint.Fits(length, width) && |m.addr| == length && buf[8..] == Varint.Wide(length, width) + (m.addr + m.data)
  {
    Varint.DecodedIsWide(buf[8..]);
    var (length, width) := Varint.Decode(buf[8..]).value;
    AddressAndData(buf, 8 + width, length);
  }

  lemma {:induction false} Rebuilt(buf: seq<Byte>, m: UdpMessage, width: nat)
    requires |buf| >= 8 && Varint.Fits(|m.addr|, width)
    requires buf[0..4] == BigEndian(m.sessionId, 4) && buf[4..6] == BigEndian(m.packetId, 2)
    requires buf[6] == m.fragId && buf[7] == m.fragCount
    requires buf[8..] == Varint.Wide(|m.addr|, width) + (m.addr + m.data)
    ensures buf == DatagramText(m, width)
  {
    FrontAndTail(buf);
  }

  lemma {:induction false} AddressAndData(buf: seq<Byte>, start: nat, length: nat)
    requires 8 <= start && start + length <= |buf|
    ensures buf[8..] == buf[8..][..start - 8] + (buf[start..start + length] + buf[start + length..])
  {
  }

  lemma {:induction false} FrontAndTail(buf: seq<Byte>)
    requires |buf| >= 8
    ensures buf == buf[0..4] + buf[4..6] + [buf[6], buf[7]] + buf[8..]
  {
  }

  /** A datagram cut in its address is told from one cut before it; cut later, it only loses data. */
  lemma {:induction false} DatagramCut(buf: seq<Byte>, k: nat)
    requires ParseUdp(buf).Ok? && k <= |buf|
    ensures
      var m := ParseUdp(buf).value;
      var header := |buf| - |m.data|;
      ParseUdp(buf[..k]) ==
        if k < header - |m.addr| then Err(UnexpectedEof)
        else if k < header then Err(InvalidMessageLength)
        else Ok(m.(data := m.data[..k - header]))
  {
    if k >= 8 {
      Varint.DecodePrefix(buf[8..], k - 8);
      assert buf[..k][8..] == buf[8..][..k - 8];
      assert buf[..k][0..4] == buf[0..4] && buf[..k][4..6] == buf[4..6];
      var m := ParseUdp(buf).value;
      var header := |buf| - |m.data|;
      if k >= header {
        assert buf[..k][header - |m.addr|..header] == m.addr && buf[..k][header..] == m.data[..k - header];
      }
    }
  }

  // ================================================================ TCP streams

  /** What is left to read of a byte stream whose other end has stopped writing. */
  class ByteStream {
    var rest: seq<Byte>

    constructor (bytes: seq<Byte>)
      ensures rest == bytes
    {
      rest := bytes;
    }

    /** `read_exact`: all of the bytes, or an end-of-file error with an unspecified part consumed. */
    method ReadExact(n: nat) returns (r: Result<seq<Byte>, ProtocolError>)
      modifies this
      ensures n <= |old(rest)| ==> r == Ok(old(rest)[..n]) && rest == old(rest)[n..]
      ensures n > |old(rest)| ==> r == Err(UnexpectedEof)
    {
      if n > |rest| {
        rest := [];
        return Err(UnexpectedEof);
      }
      r := Ok(rest[..n]);
      rest := rest[n..];
    }
  }

  /** A decoded value and the stream that follows it. */
  type Read<T> = Result<(T, seq<Byte>), ProtocolError>

  function TakeVarint(s: seq<Byte>): Read<nat> {
    match Varint.Decode(s)
    case Err(_) => Err(UnexpectedEof)
    case Ok((value, width)) => Ok((value, s[width..]))
  }

  function TakeBytes(s: seq<Byte>, n: nat): Read<seq<Byte>> {
    if |s| < n then Err(UnexpectedEof) else Ok((s[..n], s[n..]))
  }

  /** The padding field: a length no larger than `MAX_PADDING_LENGTH`, then that many ignored bytes. */
  function TakePadding(s: seq<Byte>): Read<()> {
    match TakeVarint(s)
    case Err(e) => Err(e)
    case Ok((n, afterLen)) =>
      if n > MAX_PADDING_LENGTH then Err(InvalidPaddingLength)
      else
        match TakeBytes(afterLen, n)
        case Err(e) => Err(e)
        case Ok((_, rest)) => Ok(((), rest))
  }

  /** The request grammar both readers implement. */
  function TakeRequest(s: seq<Byte>): Read<seq<Byte>> {
    match TakeVarint(s)
    case Err(e) => Err(e)
    case Ok((n, afterLen)) =>
      if n == 0 || n > MAX_ADDRESS_LENGTH then Err(InvalidAddressLength)
      else
        match TakeBytes(afterLen, n)
        case Err(e) => Err(e)
        case Ok((addr, afterAddr)) =>
          match TakePadding(afterAddr)
          case Err(e) => Err(e)
          case Ok((_, rest)) => Ok((addr, rest))
  }

  function TakeFramedRequest(s: seq<Byte>): Read<seq<Byte>> {
    match TakeVarint(s)
    case Err(e) => Err(e)
    case Ok((frameType, rest)) =>
      if frameType != FRAME_TYPE_TCP_REQUEST then Err(UnexpectedFrameType(frameType)) else TakeRequest(rest)
  }

  /** What follows the status of a response. */
  function TakeMessage(s: seq<Byte>): Read<seq<Byte>> {
    match TakeVarint(s)
    case Err(e) => Err(e)
    case Ok((n, afterLen)) =>
      if n > MAX_MESSAGE_LENGTH then Err(InvalidMessageLength)
      else
        match TakeBytes(afterLen, n)
        case Err(e) => Err(e)
        case Ok((message, afterMessage)) =>
          match TakePadding(afterMessage)
          case Err(e) => Err(e)
          case Ok((_, rest)) => Ok((message, rest))
  }

  /** The response grammar both readers implement. */
  function TakeResponse(s: seq<Byte>): Read<(bool, seq<Byte>)> {
    if s == [] then Err(UnexpectedEof)
    else
      match TakeMessage(s[1..])
      case Err(e) => Err(e)
      case Ok((message, rest)) => Ok(((s[0] == 0, message), rest))
  }

  function EncodeRequest(addr: seq<Byte>, padding: seq<Byte>): (s: seq<Byte>)
    requires Encodable(addr) && Encodable(padding)
  {
    Varint.Encode(FRAME_TYPE_TCP_REQUEST) + EncodeField(addr) + EncodeField(padding)
  }

  function EncodeResponse(ok: bool, message: seq<Byte>, padding: seq<Byte>): (s: seq<Byte>)
    requires Encodable(message) && Encodable(padding)
  {
    [if ok then 0 else 1] + EncodeField(message) + EncodeField(padding)
  }

  function EncodeField(field: seq<Byte>): (s: seq<Byte>)
    requires Encodable(field)
  {
    Varint.Encode(|field|) + field
  }

  lemma {:induction false} TakeVarintEncode(value: nat, rest: seq<Byte>)
    requires value <= Varint.MAX_VARINT
    ensures TakeVarint(Varint.Encode(value) + rest) == Ok((value, rest))
  {
    Varint.DecodeEncode(value, rest);
  }

  lemma {:induction false} TakeField(field: seq<Byte>, rest: seq<Byte>)
    requires Encodable(field)
    ensures TakeVarint(EncodeField(field) + rest) == Ok((|field|, field + rest))
    ensures TakeBytes(field + rest, |field|) == Ok((field, rest))
  {
    assert EncodeField(field) + rest == Varint.Encode(|field|) + (field + rest);
    TakeVarintEncode(|field|, field + rest);
  }

  /** A written request reads back, leaving what follows untouched, exactly when both lengths are in range. */
  lemma {:induction false} RequestRoundTrip(addr: seq<Byte>, padding: seq<Byte>, rest: seq<Byte>)
    requires Encodable(addr) && Encodable(padding)
    ensures TakeFramedRequest(EncodeRequest(addr, padding) + rest) ==
            if !(1 <= |addr| <= MAX_ADDRESS_LENGTH) then Err(InvalidAddressLength)
            else if |padding| > MAX_PADDING_LENGTH then Err(InvalidPaddingLength)
            else Ok((addr, rest))
  {
    var body := EncodeField(addr) + (EncodeField(padding) + rest);
    assert EncodeRequest(addr, padding) + rest == Varint.Encode(FRAME_TYPE_TCP_REQUEST) + body;
    TakeVarintEncode(FRAME_TYPE_TCP_REQUEST, body);
    TakeField(addr, EncodeField(padding) + rest);
    TakeField(padding, rest);
  }

  /** A written response reads back the same way. */
  lemma {:induction false} ResponseRoundTrip(ok: bool, message: seq<Byte>, padding: seq<Byte>, rest: seq<Byte>)
    requires Encodable(message) && Encodable(padding)
    ensures TakeResponse(EncodeResponse(ok, message, padding) + rest) ==
            if |message| > MAX_MESSAGE_LENGTH then Err(InvalidMessageLength)
            else if |padding| > MAX_PADDING_LENGTH then Err(InvalidPaddingLength)
            else Ok(((ok, message), rest))
  {
    var s := EncodeResponse(ok, message, padding) + rest;
    assert s[1..] == EncodeField(message) + (EncodeField(padding) + rest);
    TakeField(message, EncodeField(padding) + rest);
    TakeField(padding, rest);
  }

  // ---------------------------------------------------------------- the texts that are read

  /** A string behind its length, which may be encoded in any width that has room for it. */
  function FieldText(width: nat, field: seq<Byte>): (s: seq<Byte>)
    requires Varint.Fits(|field|, width)
    ensures |s| == width + |field|
  {
    Varint.Wide(|field|, width) + field
  }

  /** The text of a request: the frame type 0x401, the address, and the padding. */
  function RequestText(width: nat, addrWidth: nat, addr: seq<Byte>, padWidth: nat, padding: seq<Byte>): seq<Byte>
    requires Varint.Fits(0x401, width) && Varint.Fits(|addr|, addrWidth) && Varint.Fits(|padding|, padWidth)
  {
    Varint.Wide(0x401, width) + FieldText(addrWidth, addr) + FieldText(padWidth, padding)
  }

  /** The text of a response: a status byte, zero for success, the message, and the padding. */
  function ResponseText(status: Byte, width: nat, message: seq<Byte>, padWidth: nat, padding: seq<Byte>): seq<Byte>
    requires Varint.Fits(|message|, width) && Varint.Fits(|padding|, padWidth)
  {
    [status] + FieldText(width, message) + FieldText(padWidth, padding)
  }

  lemma {:induction false} TakeWide(value: nat, width: nat, rest: seq<Byte>)
    requires Varint.Fits(value, width)
    ensures TakeVarint(Varint.Wide(value, width) + rest) == Ok((value, rest))
  {
    Varint.DecodeWide(value, width, rest);
  }

  lemma {:induction false} TakeFieldText(width: nat, field: seq<Byte>, rest: seq<Byte>)
    requires Varint.Fits(|field|, width)
    ensures TakeVarint(FieldText(width, field) + rest) == Ok((|field|, field + rest))
    ensures TakeBytes(field + rest, |field|) == Ok((field, rest))
  {
    assert FieldText(width, field) + rest == Varint.Wide(|field|, width) + (field + rest);
    TakeWide(|field|, width, field + rest);
  }

  lemma {:induction false} WideTaken(s: seq<Byte>) returns (width: nat)
    requires TakeVarint(s).Ok?
    ensures
      var (value, rest) := TakeVarint(s).value;
      Varint.Fits(value, width) && s == Varint.Wide(value, width) + rest
  {
    Varint.DecodedIsWide(s);
    width := Varint.Decode(s).value.1;
  }

  lemma {:induction false} FieldTaken(s: seq<Byte>) returns (width: nat)
    requires TakeVarint(s).Ok? && TakeBytes(TakeVarint(s).value.1, TakeVarint(s).value.0).Ok?
    ensures
      var (field, rest) := TakeBytes(TakeVarint(s).value.1, TakeVarint(s).value.0).value;
      Varint.Fits(|field|, width) && s == FieldText(width, field) + rest
  {
    width := WideTaken(s);
  }

  lemma {:induction false} PaddingTaken(s: seq<Byte>) returns (width: nat, padding: seq<Byte>)
    requires TakePadding(s).Ok?
    ensures |padding| <= 4096 && Varint.Fits(|padding|, width)
    ensures s == FieldText(width, padding) + TakePadding(s).value.1
  {
    width := FieldTaken(s);
    padding := TakeBytes(TakeVarint(s).value.1, TakeVarint(s).value.0).value.0;
  }

  lemma {:induction false} PaddingReads(width: nat, padding: seq<Byte>, rest: seq<Byte>)
    requires Varint.Fits(|padding|, width) && |padding| <= 4096
    ensures TakePadding(FieldText(width, padding) + rest) == Ok(((), rest))
  {
    TakeFieldText(width, padding, rest);
  }

  lemma {:induction false} BodyReads(addrWidth: nat, addr: seq<Byte>, after: seq<Byte>, rest: seq<Byte>)
    requires Varint.Fits(|addr|, addrWidth) && 1 <= |addr| <= 2048 && TakePadding(after) == Ok(((), rest))
    ensures TakeRequest(FieldText(addrWidth, addr) + after) == Ok((addr, rest))
  {
    TakeFieldText(addrWidth, addr, after);
  }

  /** Every request text with an address of 1 to 2048 bytes and at most 4096 of padding is read. */
  lemma {:induction false} RequestReads(width: nat, addrWidth: nat, addr: seq<Byte>, padWidth: nat, padding: seq<Byte>,
                                        rest: seq<Byte>)
    requires Varint.Fits(0x401, width) && Varint.Fits(|addr|, addrWidth) && Varint.Fits(|padding|, padWidth)
    requires 1 <= |addr| <= 2048 && |padding| <= 4096
    ensures TakeFramedRequest(RequestText(width, addrWidth, addr, padWidth, padding) + rest) == Ok((addr, rest))
  {
    var after := FieldText(padWidth, padding) + rest;
    PaddingReads(padWidth, padding, rest);
    BodyReads(addrWidth, addr, after, rest);
    TakeWide(0x401, width, FieldText(addrWidth, addr) + after);
    Regroup(Varint.Wide(0x401, width), FieldText(addrWidth, addr), FieldText(padWidth, padding), rest);
  }

  lemma {:induction false} Regroup(a: seq<Byte>, b: seq<Byte>, c: seq<Byte>, d: seq<Byte>)
    ensures a + b + c + d == a + (b + (c + d))
  {
  }

  /** And nothing else is. */
  lemma {:induction false} RequestRead(s: seq<Byte>)
    returns (width: nat, addrWidth: nat, padWidth: nat, padding: seq<Byte>)
    requires TakeFramedRequest(s).Ok?
    ensures
      var (addr, rest) := TakeFramedRequest(s).value;
      && 1 <= |addr| <= 2048 && |padding| <= 4096
      && Varint.Fits(0x401, width) && Varint.Fits(|addr|, addrWidth) && Varint.Fits(|padding|, padWidth)
      && s == RequestText(width, addrWidth, addr, padWidth, padding) + rest
  {
    width := WideTaken(s);
    addrWidth, padWidth, padding := BodyRead(TakeVarint(s).value.1);
    var (addr, rest) := TakeRequest(TakeVarint(s).value.1).value;
    Regroup(Varint.Wide(0x401, width), FieldText(addrWidth, addr), FieldText(padWidth, padding), rest);
  }

  lemma {:induction false} BodyRead(s: seq<Byte>) returns (addrWidth: nat, padWidth: nat, padding: seq<Byte>)
    requires TakeRequest(s).Ok?
    ensures
      var (addr, rest) := TakeRequest(s).value;
      && 1 <= |addr| <= 2048 && |padding| <= 4096
      && Varint.Fits(|addr|, addrWidth) && Varint.Fits(|padding|, padWidth)
      && s == FieldText(addrWidth, addr) + (FieldText(padWidth, padding) + rest)
  {
    addrWidth := FieldTaken(s);
    var after := TakeBytes(TakeVarint(s).value.1, TakeVarint(s).value.0).value.1;
    padWidth, padding := PaddingTaken(after);
  }

  /** A frame of another type is refused, by its type. */
  lemma {:induction false} OtherFrameRefused(frameType: nat, width: nat, rest: seq<Byte>)
    requires Varint.Fits(frameType, width) && frameType != 0x401
    ensures TakeFramedRequest(Varint.Wide(frameType, width) + rest) == Err(UnexpectedFrameType(frameType))
  {
    TakeWide(frameType, width, rest);
  }

  /** Every response text with at most 2048 bytes of message and 4096 of padding is read; status 0 alone is success. */
  lemma {:induction false} ResponseReads(status: Byte, width: nat, message: seq<Byte>, padWidth: nat,
                                         padding: seq<Byte>, rest: seq<Byte>)
    requires Varint.Fits(|message|, width) && Varint.Fits(|padding|, padWidth)
    requires |message| <= 2048 && |padding| <= 4096
    ensures TakeResponse(ResponseText(status, width, message, padWidth, padding) + rest)
         == Ok(((status == 0, message), rest))
  {
    var after := FieldText(padWidth, padding) + rest;
    PaddingReads(padWidth, padding, rest);
    MessageReads(width, message, after, rest);
    Regroup([status], FieldText(width, message), FieldText(padWidth, padding), rest);
    Headed(status, FieldText(width, message) + after);
  }

  lemma {:induction false} MessageReads(width: nat, message: seq<Byte>, after: seq<Byte>, rest: seq<Byte>)
    requires Varint.Fits(|message|, width) && |message| <= 2048 && TakePadding(after) == Ok(((), rest))
    ensures TakeMessage(FieldText(width, message) + after) == Ok((message, rest))
  {
    TakeFieldText(width, message, after);
  }

  lemma {:induction false} Headed(head: Byte, tail: seq<Byte>)
    ensures ([head] + tail)[0] == head && ([head] + tail)[1..] == tail
  {
  }

  /** And nothing else is. */
  lemma {:induction false} ResponseRead(s: seq<Byte>)
    returns (status: Byte, width: nat, padWidth: nat, padding: seq<Byte>)
    requires TakeResponse(s).Ok?
    ensures
      var ((ok, message), rest) := TakeResponse(s).value;
      && |message| <= 2048 && |padding| <= 4096 && ok == (status == 0)
      && Varint.Fits(|message|, width) && Varint.Fits(|padding|, padWidth)
      && s == ResponseText(status, width, message, padWidth, padding) + rest
  {
    status := s[0];
    var body := s[1..];
    width := FieldTaken(body);
    var (message, after) := TakeBytes(TakeVarint(body).value.1, TakeVarint(body).value.0).value;
    padWidth, padding := PaddingTaken(after);
    assert s == [status] + body;
    Regroup([status], FieldText(width, message), FieldText(padWidth, padding), TakePadding(after).value.1);
  }

  // ---------------------------------------------------------------- texts that are cut short

  /** Read from the first `k` bytes of `s`, what is read from `s` either comes out the same or meets the end. */
  ghost predicate CutRead<T>(whole: Read<T>, cut: Read<T>, length: nat, k: nat)
    requires whole.Ok? && k <= length
  {
    var (value, rest) := whole.value;
    && |rest| <= length
    && cut == if k < length - |rest| then Err(UnexpectedEof) else Ok((value, rest[..k - (length - |rest|)]))
  }

  lemma {:induction false} VarintCut(s: seq<Byte>, k: nat)
    requires TakeVarint(s).Ok? && k <= |s|
    ensures CutRead(TakeVarint(s), TakeVarint(s[..k]), |s|, k)
  {
    Varint.DecodePrefix(s, k);
    var width := Varint.Decode(s).value.1;
    if k >= width {
      assert s[..k][width..] == s[width..][..k - width];
    }
  }

  lemma {:induction false} BytesCut(s: seq<Byte>, n: nat, k: nat)
    requires TakeBytes(s, n).Ok? && k <= |s|
    ensures CutRead(TakeBytes(s, n), TakeBytes(s[..k], n), |s|, k)
  {
    if k >= n {
      assert s[..k][..n] == s[..n] && s[..k][n..] == s[n..][..k - n];
    }
  }

  lemma {:induction false} PaddingCut(s: seq<Byte>, k: nat)
    requires TakePadding(s).Ok? && k <= |s|
    ensures CutRead(TakePadding(s), TakePadding(s[..k]), |s|, k)
  {
    VarintCut(s, k);
    var (n, after) := TakeVarint(s).value;
    var width := |s| - |after|;
    if k >= width {
      BytesCut(after, n, k - width);
    }
  }

  lemma {:induction false} RequestCut(s: seq<Byte>, k: nat)
    requires TakeRequest(s).Ok? && k <= |s|
    ensures CutRead(TakeRequest(s), TakeRequest(s[..k]), |s|, k)
  {
    VarintCut(s, k);
    var (n, after) := TakeVarint(s).value;
    if k >= |s| - |after| {
      AddressCut(n, after, s[..k], k - (|s| - |after|));
    }
  }

  lemma {:induction false} AddressCut(n: nat, s: seq<Byte>, cut: seq<Byte>, k: nat)
    requires 1 <= n <= MAX_ADDRESS_LENGTH && TakeBytes(s, n).Ok? && TakePadding(s[n..]).Ok? && k <= |s|
    requires TakeVarint(cut) == Ok((n, s[..k]))
    ensures
      var rest := TakePadding(s[n..]).value.1;
      && |rest| <= |s|
      && TakeRequest(cut)
      == if k < |s| - |rest| then Err(UnexpectedEof) else Ok((s[..n], rest[..k - (|s| - |rest|)]))
  {
    BytesCut(s, n, k);
    if k >= n {
      PaddingCut(s[n..], k - n);
    }
  }

  /** A request cut anywhere before its end is an unexpected end, never another request or another error. */
  lemma {:induction false} FramedRequestCut(s: seq<Byte>, k: nat)
    requires TakeFramedRequest(s).Ok? && k <= |s|
    ensures CutRead(TakeFramedRequest(s), TakeFramedRequest(s[..k]), |s|, k)
  {
    VarintCut(s, k);
    var after := TakeVarint(s).value.1;
    var width := |s| - |after|;
    if k >= width {
      RequestCut(after, k - width);
    }
  }

  lemma {:induction false} MessageCut(s: seq<Byte>, k: nat)
    requires TakeMessage(s).Ok? && k <= |s|
    ensures CutRead(TakeMessage(s), TakeMessage(s[..k]), |s|, k)
  {
    VarintCut(s, k);
    var (n, after) := TakeVarint(s).value;
    if k >= |s| - |after| {
      TextCut(n, after, s[..k], k - (|s| - |after|));
    }
  }

  lemma {:induction false} TextCut(n: nat, s: seq<Byte>, cut: seq<Byte>, k: nat)
    requires n <= MAX_MESSAGE_LENGTH && TakeBytes(s, n).Ok? && TakePadding(s[n..]).Ok? && k <= |s|
    requires TakeVarint(cut) == Ok((n, s[..k]))
    ensures
      var rest := TakePadding(s[n..]).value.1;
      && |rest| <= |s|
      && TakeMessage(cut)
      == if k < |s| - |rest| then Err(UnexpectedEof) else Ok((s[..n], rest[..k - (|s| - |rest|)]))
  {
    BytesCut(s, n, k);
    if k >= n {
      PaddingCut(s[n..], k - n);
    }
  }

  /** The same for a response. */
  lemma {:induction false} ResponseCut(s: seq<Byte>, k: nat)
    requires TakeResponse(s).Ok? && k <= |s|
    ensures CutRead(TakeResponse(s), TakeResponse(s[..k]), |s|, k)
  {
    if k > 0 {
      assert s[..k][1..] == s[1..][..k - 1];
      MessageCut(s[1..], k - 1);
    } else {
      assert |TakeMessage(s[1..]).value.1| <= |s[1..]| by {
        MessageCut(s[1..], 0);
      }
    }
  }

  // ---------------------------------------------------------------- writers

  /** `write_tcp_request`, with the random padding as an argument. */
  method WriteTcpRequest(addr: seq<Byte>, padding: seq<Byte>) returns (buf: array<Byte>)
    requires Encodable(addr) && Encodable(padding)
    ensures fresh(buf) && buf[..] == EncodeRequest(addr, padding)
  {
    var size := Varint.Len(FRAME_TYPE_TCP_REQUEST) + Varint.Len(|addr|) + |addr|
                + Varint.Len(|padding|) + |padding|;
    buf := new Byte[size](_ => 0);
    var index := AppendVarint(buf, 0, FRAME_TYPE_TCP_REQUEST);
    index := AppendField(buf, index, addr);
    index := AppendField(buf, index, padding);
    assert buf[..] == buf[..index];
  }

  /** `write_tcp_response`, with the random padding as an argument. */
  method WriteTcpResponse(ok: bool, message: seq<Byte>, padding: seq<Byte>) returns (buf: array<Byte>)
    requires Encodable(message) && Encodable(padding)
    ensures fresh(buf) && buf[..] == EncodeResponse(ok, message, padding)
  {
    var size := 1 + Varint.Len(|message|) + |message| + Varint.Len(|padding|) + |padding|;
    buf := new Byte[size](_ => 0);
    var index := Append(buf, 0, [if ok then 0 else 1]);
    index := AppendField(buf, index, message);
    index := AppendField(buf, index, padding);
    assert buf[..] == buf[..index];
  }

  /** A length and then the bytes, as both writers lay their strings out. */
  method AppendField(buf: array<Byte>, at: nat, field: seq<Byte>) returns (next: nat)
    requires Encodable(field) && at + Varint.Len(|field|) + |field| <= buf.Length
    modifies buf
    ensures next == at + Varint.Len(|field|) + |field|
    ensures buf[..next] == old(buf[..at]) + EncodeField(field)
    ensures forall i | next <= i < buf.Length :: buf[i] == old(buf[i])
  {
    next := AppendVarint(buf, at, |field|);
    next := Append(buf, next, field);
  }

  // ---------------------------------------------------------------- readers

  /** Both readers satisfy this: the result is the grammar's, and on success so is what is left. */
  ghost predicate Matches<T>(r: Result<T, ProtocolError>, left: seq<Byte>, spec: Read<T>) {
    match spec
    case Err(e) => r == Err(e)
    case Ok((value, rest)) => r == Ok(value) && left == rest
  }

  /** `varint::read` and `read_varint`: first byte, announced bytes, then accumulate. */
  method ReadVarint(stream: ByteStream) returns (r: Result<nat, ProtocolError>)
    modifies stream
    ensures Matches(r, stream.rest, TakeVarint(old(stream.rest)))
  {
    ghost var input := stream.rest;
    var first := stream.ReadExact(1);
    if first.Err? {
      return Err(first.error);
    }
    var needed := Varint.Needed(first.value[0]);
    var rest := stream.ReadExact(needed - 1);
    if rest.Err? {
      return Err(rest.error);
    }
    assert first.value + rest.value == input[..needed];
    assert input[..needed][1..needed] == input[1..needed];
    var decoded := Varint.ReadSlice(first.value + rest.value);
    return Ok(decoded.value.0);
  }

  /** `discard_exact`: skip bytes 1024 at a time. */
  method DiscardExact(stream: ByteStream, len: nat) returns (r: Result<(), ProtocolError>)
    modifies stream
    ensures len <= |old(stream.rest)| ==> r == Ok(()) && stream.rest == old(stream.rest)[len..]
    ensures len > |old(stream.rest)| ==> r == Err(UnexpectedEof)
  {
    var remaining := len;
    ghost var input := stream.rest;
    while remaining > 0
      invariant 0 <= remaining <= len && len - remaining <= |input|
      invariant stream.rest == input[len - remaining..]
    {
      var chunk := Min(remaining, 1024);
      var got := stream.ReadExact(chunk);
      if got.Err? {
        return Err(UnexpectedEof);
      }
      remaining := remaining - chunk;
    }
    return Ok(());
  }

  /** The padding step of the synchronous readers: one `read_exact` of the whole field. */
  method SkipPaddingSync(stream: ByteStream) returns (r: Result<(), ProtocolError>)
    modifies stream
    ensures Matches(r, stream.rest, TakePadding(old(stream.rest)))
  {
    var n := ReadVarint(stream);
    if n.Err? {
      return Err(n.error);
    }
    if n.value > MAX_PADDING_LENGTH {
      return Err(InvalidPaddingLength);
    }
    if n.value > 0 {
      var discard := stream.ReadExact(n.value);
      if discard.Err? {
        return Err(discard.error);
      }
    }
    return Ok(());
  }

  /** The padding step of the asynchronous readers: `discard_exact`. */
  method SkipPaddingAsync(stream: ByteStream) returns (r: Result<(), ProtocolError>)
    modifies stream
    ensures Matches(r, stream.rest, TakePadding(old(stream.rest)))
  {
    var n := ReadVarint(stream);
    if n.Err? {
      return Err(n.error);
    }
    if n.value > MAX_PADDING_LENGTH {
      return Err(InvalidPaddingLength);
    }
    r := DiscardExact(stream, n.value);
  }

  /** `read_tcp_request`; `blocking` picks the synchronous reader. */
  method ReadTcpRequest(stream: ByteStream, blocking: bool) returns (r: Result<seq<Byte>, ProtocolError>)
    modifies stream
    ensures Matches(r, stream.rest, TakeRequest(old(stream.rest)))
  {
    var n := ReadVarint(stream);
    if n.Err? {
      return Err(n.error);
    }
    if n.value == 0 || n.value > MAX_ADDRESS_LENGTH {
      return Err(InvalidAddressLength);
    }
    var addr := stream.ReadExact(n.value);
    if addr.Err? {
      return Err(addr.error);
    }
    var padding;
    if blocking {
      padding := SkipPaddingSync(stream);
    } else {
      padding := SkipPaddingAsync(stream);
    }
    if padding.Err? {
      return Err(padding.error);
    }
    return addr;
  }

  /** `read_framed_tcp_request`. */
  method ReadFramedTcpRequest(stream: ByteStream) returns (r: Result<seq<Byte>, ProtocolError>)
    modifies stream
    ensures Matches(r, stream.rest, TakeFramedRequest(old(stream.rest)))
  {
    var frameType := ReadVarint(stream);
    if frameType.Err? {
      return Err(frameType.error);
    }
    if frameType.value != FRAME_TYPE_TCP_REQUEST {
      return Err(UnexpectedFrameType(frameType.value));
    }
    r := ReadTcpRequest(stream, false);
  }

  /** `read_tcp_response`; `blocking` picks the synchronous reader. */
  method ReadTcpResponse(stream: ByteStream, blocking: bool)
    returns (r: Result<(bool, seq<Byte>), ProtocolError>)
    modifies stream
    ensures Matches(r, stream.rest, TakeResponse(old(stream.rest)))
  {
    var status := stream.ReadExact(1);
    if status.Err? {
      return Err(status.error);
    }
    var n := ReadVarint(stream);
    if n.Err? {
      return Err(n.error);
    }
    if n.value > MAX_MESSAGE_LENGTH {
      return Err(InvalidMessageLength);
    }
    var message: Result<seq<Byte>, ProtocolError> := Ok([]);
    if n.value > 0 {
      message := stream.ReadExact(n.value);
      if message.Err? {
        return Err(message.error);
      }
    }
    var padding;
    if blocking {
      padding := SkipPaddingSync(stream);
    } else {
      padding := SkipPaddingAsync(stream);
    }
    if padding.Err? {
      return Err(padding.error);
    }
    return Ok((status.value[0] == 0, message.value));
  }
}
