/** One concrete input for each property that one would expect and that does not hold. */
module Failures {
  import opened Base
  import opened Utf8
  import Varint
  import opened Proxy
  import opened Frag
  import opened Defrag
  import opened Reassembly
  import opened UdpSession
  import opened Limiter
  import opened Streams
  import Salamander
  import HttpProxy
  import Rfc9112
  import ChunkedCoding
  import Speedtest
  import Dns
  import Userinfo

  // ================================================================ UDP

  /** 256 fragments of one byte: the count wraps to zero, and the message is not what comes out. */
  lemma {:induction false} TooManyFragments()
    ensures
      var m := UdpMessage(1, 7, 0, 1, [97], seq(256, _ => 0));
      var limit := m.HeaderSize() + 1;
      Sendable(m, limit) && Outputs(EMPTY, Fragments(m, limit)) != [m]
  {
    var m := UdpMessage(1, 7, 0, 1, [97], seq(256, _ => 0));
    assert DivCeil(256, 1) == 256;
    SurvivesIffCountFitsU8(m, m.HeaderSize() + 1);
  }

  /** Half of packet `id`, which two fragments make up. */
  function Half(id: U16, fragId: Byte): UdpMessage {
    UdpMessage(1, id, fragId, 2, [97], [])
  }

  /** The first halves of 64 other packets push out a first half, so that its second half completes nothing. */
  lemma {:induction false} CrowdedOutBySixtyFour()
    ensures
      var t := Feed(EMPTY, Half(1, 0)).0;
      var others := seq(64, i requires 0 <= i < 64 => Half(i + 2, 0));
      1 in t.packets && Feed(Run(t, others), Half(1, 1)).1 == None
  {
    var t := Feed(EMPTY, Half(1, 0)).0;
    var others := seq(64, i requires 0 <= i < 64 => Half(i + 2, 0));
    StartsLast(EMPTY, Half(1, 0));
    FeedInv(EMPTY, Half(1, 0));
    assert t.packets.Keys == {1};
    SixtyFourEvict(t, 1, others);
  }

  /** The client after `n` creations. */
  ghost function Created(n: nat): Client {
    if n == 0 then NEW_CLIENT else Step(Created(n - 1), NewUdp(1))
  }

  lemma {:induction false} CreatedRun(n: nat)
    ensures StateAfter(seq(n, _ => NewUdp(1))) == Created(n)
  {
    if n > 0 {
      var es := seq(n, _ => NewUdp(1));
      assert es[..|es| - 1] == seq(n - 1, _ => NewUdp(1));
      CreatedRun(n - 1);
    }
  }

  lemma {:induction false} ManySessions(n: nat)
    requires n <= SESSION_IDS
    ensures RoutingInv(Created(n), n) && !Created(n).closed && Created(n).pending == None
  {
    if n > 0 {
      ManySessions(n - 1);
      OneMore(Created(n - 1), n - 1);
    }
  }

  lemma {:induction false} OneMore(c: Client, n: nat)
    requires RoutingInv(c, n) && n < SESSION_IDS && !c.closed && c.pending == None
    ensures
      var c' := Step(c, NewUdp(1));
      RoutingInv(c', n + 1) && !c'.closed && c'.pending == None
  {
    NewRouting(c, n, 1);
  }

  /** After 2^32 sessions the next one gets the first one's id, its place in the table and its datagrams. */
  lemma {:induction false} IdUsedTwice(d: Datagram)
    requires ParseUdp(d).Ok? && ParseUdp(d).value.sessionId == 1
    ensures NthId(0) == NthId(SESSION_IDS) == 1
    ensures
      var c := StateAfter(seq(SESSION_IDS, _ => NewUdp(1)));
      var created := Step(c, NewUdp(2));
      var routed := Step(Step(created, Arrive(d)), FinishSend);
      && 1 in c.sessions && 1 in created.sessions && 1 in routed.sessions
      && created.sessions[1] == Session([], 2, true, |c.arrived|, [], EMPTY, [])
      && routed.sessions[1] == created.sessions[1].(queue := [ParseUdp(d).value])
  {
    CreatedRun(SESSION_IDS);
    ManySessions(SESSION_IDS);
    WrappedId(Created(SESSION_IDS), 2, d);
  }

  /** At the smallest burst, a request for one byte more is granted in no run. */
  lemma {:induction false} NeverGranted()
    ensures !GrantedInSomeRun(LimitsFor(1), MIN_BURST_BYTES + 1)
  {
    GrantedInSomeRunIffFits(LimitsFor(1), MIN_BURST_BYTES + 1);
  }

  /** A message that the limiter never lets pass, although all its fragments are small enough. */
  lemma {:induction false} NeverSplit(random: U16)
    ensures
      var m := UdpMessage(1, 0, 0, 1, [97], seq(20_000, _ => 0));
      && Parts(m, 1200, random).Ok?
      && (forall f | f in Parts(m, 1200, random).value :: Encodable(f.addr) && f.Size() <= LimitsFor(1).burst)
      && !GrantedInSomeRun(LimitsFor(1), m.Size())
  {
    var m := UdpMessage(1, 0, 0, 1, [97], seq(20_000, _ => 0));
    PartsEncodable(m, 1200, random);
    GrantedInSomeRunIffFits(LimitsFor(1), m.Size());
  }

  // ================================================================ Salamander

  /** A batch of 17 bytes with stride 9: the salt that ends it is dropped. */
  lemma {:induction false} BareSaltDropped(keyOf: Salamander.KeyOf, before: seq<Byte>, after: seq<Byte>,
                                           meta: Salamander.RecvMeta)
    requires Salamander.Decoded(keyOf, before, Salamander.RecvMeta(17, 9), after, meta)
    ensures Salamander.FateOf(Salamander.RecvMeta(17, 9)) == Salamander.Decodes
    ensures after[..meta.len] != [] ==> meta.stride > 0
    ensures Salamander.Resegment(after[..meta.len], meta.stride)
         != Salamander.UnsealAll(keyOf, Salamander.Segments(before, Salamander.RecvMeta(17, 9)))
  {
    Salamander.ResegmentIffPayload(keyOf, before, Salamander.RecvMeta(17, 9), after, meta);
  }

  /** A batch of 10 bytes with stride 9: the decoder panics at its last byte. */
  lemma {:induction false} ShortSegmentPanics()
    ensures Salamander.FateOf(Salamander.RecvMeta(10, 9)) == Salamander.Panics
  {
    assert Salamander.LastLength(10, 9) == 1;
  }

  // ================================================================ HTTP

  lemma {:induction false} FirstAfter(n: nat, tail: seq<Byte>, pattern: seq<Byte>)
    requires pattern != [] && pattern[0] != 97 && |pattern| <= |tail| && tail[..|pattern|] == pattern
    ensures HttpProxy.Find(seq(n, _ => 97) + tail, pattern) == Some(n)
  {
    var s := seq(n, _ => 97) + tail;
    assert s[n..n + |pattern|] == pattern;
    forall j: nat | j < n
      ensures !HttpProxy.At(s, pattern, j)
    {
      assert j + |pattern| <= |s| ==> s[j..j + |pattern|][0] == 97;
    }
    HttpProxy.FindIs(s, pattern, n);
  }

  /** A line of 8192 bytes is read from the buffer, and is too large when it comes byte by byte. */
  lemma {:induction false} LineDependsOnCuts()
    ensures
      var line := seq(8192, _ => 97) + CRLF;
      && HttpProxy.LineLoop(line, [], []).result.Ok?
      && HttpProxy.LineLoop([], line, seq(8194, _ => 1)).result == Err(HttpProxy.LineTooLarge)
  {
    var line := seq(8192, _ => 97) + CRLF;
    FirstAfter(8192, CRLF, CRLF);
    assert [] + line == line;
    assert HttpProxy.Find([], CRLF).None?;
    HttpProxy.ByteWiseFails([], line, seq(8194, _ => 1));
  }

  /** A head of 64000 bytes, with more behind it, is read from the buffer and too large when badly cut. */
  lemma {:induction false} HeadDependsOnCuts()
    ensures
      var stream := seq(64_000, _ => 97) + (HttpProxy.HEAD_END + seq(2048, _ => 98));
      && HttpProxy.HeadRead(stream, [], [])
      && !HttpProxy.HeadRead([], stream, HttpProxy.WorstCuts(64_003))
  {
    var tail := HttpProxy.HEAD_END + seq(2048, _ => 98);
    var stream := seq(64_000, _ => 97) + tail;
    assert tail[..4] == HttpProxy.HEAD_END;
    FirstAfter(64_000, tail, HttpProxy.HEAD_END);
    assert [] + stream == stream;
    assert HttpProxy.Find([], HttpProxy.HEAD_END).None?;
    HttpProxy.WorstCutsFail([], stream, 64_003);
  }

  /** A body of two bytes, of which one arrives: no error. */
  method EarlyEndAccepted() returns (written: seq<Byte>)
    ensures written == [97]
  {
    var reader := new Reader([97], []);
    var connection := new HttpProxy.Connection(reader);
    written := connection.TransferExactBytes(2);
  }

  /** A byte that occurs in no UTF-8 text. */
  lemma {:induction false} NeverUtf8(s: seq<Byte>, i: nat)
    requires i < |s| && s[i] == 0xFF
    ensures !ValidUtf8(s)
  {
    if ValidUtf8(s) {
      var n := if s[0] < 0x80 then 1 else if s[0] <= 0xDF then 2 else if s[0] <= 0xEF then 3 else 4;
      assert i >= n;
      NeverUtf8(s[n..], i - n);
    }
  }

  /** The extension `;a="?"` with an obs-text byte in the quotes. */
  const OBS_TEXT := Rfc9112.Extension(
    [], [], [97], Some(Rfc9112.Assignment([], [], Rfc9112.QuotedValue([Rfc9112.Plain(0xFF)]))))

  lemma {:induction false} ObsTextGood()
    ensures Rfc9112.GoodExtensions([OBS_TEXT])
  {
  }

  lemma {:induction false} ObsTextExtension()
    ensures Rfc9112.RenderExtensions([OBS_TEXT]) == [59, 97, 61, 34, 0xFF, 34]
  {
    assert Rfc9112.RenderParts([Rfc9112.Plain(0xFF)]) == Rfc9112.RenderParts([]) + [0xFF];
    assert Rfc9112.RenderExtension(OBS_TEXT) == [59, 97, 61, 34, 0xFF, 34];
    assert Rfc9112.RenderExtensions([OBS_TEXT]) == Rfc9112.RenderExtension(OBS_TEXT) + Rfc9112.RenderExtensions([]);
  }

  /** `5;a="?"` with that byte. */
  const OBS_TEXT_HEAD: seq<Byte> := [53, 59, 97, 61, 34, 0xFF, 34]

  lemma {:induction false} ObsTextBytes()
    ensures [53] + Rfc9112.RenderExtensions([OBS_TEXT]) == OBS_TEXT_HEAD
  {
    ObsTextExtension();
  }

  lemma {:induction false} DigitHead(digit: Byte, es: seq<Rfc9112.Extension>)
    requires IsHexDigit(digit) && Rfc9112.GoodExtensions(es)
    ensures Rfc9112.ChunkHead([digit] + Rfc9112.RenderExtensions(es)) == Some(DigitValue(digit))
  {
    Rfc9112.ChunkHeadIs([digit], es);
    assert HexValue([digit]) == HexValue([]) * 16 + DigitValue(digit);
  }

  lemma {:induction false} RefusedForByte(head: seq<Byte>, i: nat)
    requires i < |head| && head[i] == 0xFF
    ensures HttpProxy.ChunkSize(head) == Err(HttpProxy.InvalidChunkHeader)
  {
    NeverUtf8(head, i);
  }

  /** It is a chunk head of RFC 9112 that the code refuses. */
  lemma {:induction false} ObsTextRefused()
    ensures Rfc9112.ChunkHead(OBS_TEXT_HEAD) == Some(5)
    ensures HttpProxy.ChunkSize(OBS_TEXT_HEAD) == Err(HttpProxy.InvalidChunkHeader)
  {
    ObsTextBytes();
    ObsTextGood();
    DigitHead(53, [OBS_TEXT]);
    RefusedForByte(OBS_TEXT_HEAD, 5);
  }

  /** A chunk of one byte followed by XX instead of a line break, and a last chunk: `1`, `aXX0` and two line breaks. */
  predicate Unbroken(s: seq<Byte>) {
    && |s| == 11 && s[0] == 49 && s[1] == 13 && s[2] == 10 && s[3] == 97 && s[4] == 88 && s[5] == 88
    && s[6] == 48 && s[7] == 13 && s[8] == 10 && s[9] == 13 && s[10] == 10
  }

  lemma {:induction false} LineAt(s: seq<Byte>, pos: nat, end: nat)
    requires pos <= end && end + 2 <= |s| && s[end] == 13 && s[end + 1] == 10
    requires forall j | pos <= j < end :: s[j] != 13
    ensures HttpProxy.LineEnd(s, pos) == Some(end)
  {
    var tail := s[pos..];
    assert tail[end - pos..end - pos + 2] == CRLF;
    forall j: nat | j < end - pos
      ensures !HttpProxy.At(tail, CRLF, j)
    {
      assert tail[j] == s[pos + j];
      assert j + 2 <= |tail| ==> tail[j..j + 2][0] == tail[j];
    }
    HttpProxy.FindIs(tail, CRLF, end - pos);
  }

  lemma {:induction false} OneDigit(digit: Byte)
    requires IsHexDigit(digit)
    ensures Rfc9112.ChunkHead([digit]) == Some(DigitValue(digit))
    ensures HttpProxy.ChunkSize([digit]) == Ok(DigitValue(digit))
  {
    assert Rfc9112.GoodExtensions([]);
    DigitHead(digit, []);
    assert [digit] + Rfc9112.RenderExtensions([]) == [digit];
    ChunkedCoding.SizeReadIff([digit]);
    assert ValidUtf8([digit][1..]);
  }

  /** It is forwarded as a body. */
  lemma {:induction false} UnbrokenForwarded(s: seq<Byte>)
    requires Unbroken(s)
    ensures HttpProxy.Body(HttpProxy.ChunkSize, s, 0) == Some(11)
  {
    OneByteChunk(s);
    LastChunkAt(s, 6);
  }

  lemma {:induction false} OneByteChunk(s: seq<Byte>)
    requires |s| >= 6 && s[0] == 49 && s[1] == 13 && s[2] == 10
    ensures HttpProxy.Body(HttpProxy.ChunkSize, s, 0) == HttpProxy.Body(HttpProxy.ChunkSize, s, 6)
  {
    LineAt(s, 0, 1);
    OneDigit(49);
    assert s[0..1] == [49];
    HttpProxy.BodyAtChunk(HttpProxy.ChunkSize, s, 0, 1, 1, 6);
  }

  /** A chunk of one byte that no line break follows. */
  lemma {:induction false} UnbrokenNotStrict(s: seq<Byte>)
    requires |s| >= 6 && s[0] == 49 && s[1] == 13 && s[2] == 10 && s[4] != 13
    ensures !ChunkedCoding.Strict(Rfc9112.Rfc(), s, 0)
  {
    LineAt(s, 0, 1);
    OneDigit(49);
    assert s[0..1] == [49];
    assert s[4..6][0] != 13;
    ChunkedCoding.NotStrict(Rfc9112.Rfc(), s, 0, 1);
  }

  lemma {:induction false} NoRfcBody(s: seq<Byte>, end: nat)
    requires |s| < USIZE_MODULUS && HttpProxy.Body(HttpProxy.ChunkSize, s, 0) == Some(end)
    requires !ChunkedCoding.Strict(Rfc9112.Rfc(), s, 0)
    ensures !exists b :: ChunkedCoding.Renders(Rfc9112.Rfc(), b, s[0..end])
  {
    ChunkedCoding.ForwardsRfcBodyIff(s);
  }

  /** And it is none of RFC 9112. */
  lemma {:induction false} NoBodyForwarded(s: seq<Byte>)
    requires Unbroken(s)
    ensures !exists b :: ChunkedCoding.Renders(Rfc9112.Rfc(), b, s[0..11])
  {
    UnbrokenForwarded(s);
    UnbrokenNotStrict(s);
    NoRfcBody(s, 11);
  }

  /** Fourteen f, then f and e: the size 2^64 - 2, to which adding two gives zero. */
  const WRAPPING: seq<Byte> := seq(14, _ => 102) + [102, 101]

  lemma {:induction false} Fs(k: nat)
    ensures HexText(seq(2 * k, _ => 102)) && HexValue(seq(2 * k, _ => 102)) + 1 == Pow256(k)
  {
    if k > 0 {
      var s := seq(2 * k, _ => 102);
      var t := s[..|s| - 1];
      Fs(k - 1);
      assert t[..|t| - 1] == seq(2 * (k - 1), _ => 102);
      assert HexValue(s) == HexValue(t) * 16 + 15 && HexValue(t) == HexValue(t[..|t| - 1]) * 16 + 15;
    }
  }

  lemma {:induction false} WrappingValue()
    ensures HexText(WRAPPING) && HexValue(WRAPPING) == USIZE_MODULUS - 2
  {
    var w := WRAPPING;
    var t := w[..15];
    Fs(7);
    assert t[..14] == seq(14, _ => 102);
    assert HexValue(w) == HexValue(t) * 16 + 14 && HexValue(t) == HexValue(t[..14]) * 16 + 15;
    Varint.PowValues();
    assert Pow256(7) == 256 * Pow256(6) && Pow256(6) == 256 * Pow256(5) && Pow256(5) == 256 * Pow256(4);
  }

  lemma {:induction false} WrappingSize()
    ensures HttpProxy.ChunkSize(WRAPPING) == Ok(USIZE_MODULUS - 2)
  {
    WrappingValue();
    assert Rfc9112.GoodExtensions([]);
    Rfc9112.ChunkHeadIs(WRAPPING, []);
    assert WRAPPING + Rfc9112.RenderExtensions([]) == WRAPPING;
    AsciiIsUtf8(WRAPPING);
    ChunkedCoding.SizeReadIff(WRAPPING);
  }

  /** A chunk that announces 2^64 - 2 bytes, of which none follows: the last chunk is found where its data should be. */
  lemma {:induction false} SizeWraps()
    ensures
      var s := WRAPPING + CRLF + [48, 13, 10, 13, 10];
      HttpProxy.Body(HttpProxy.ChunkSize, s, 0) == Some(|s|)
  {
    var s := WRAPPING + CRLF + [48, 13, 10, 13, 10];
    LineAt(s, 0, 16);
    assert s[0..16] == WRAPPING;
    WrappingSize();
    ChunkedCoding.WrapLeads(HttpProxy.ChunkSize, s, 0, 16, USIZE_MODULUS - 2, 18);
    LastChunkAt(s, 18);
  }

  /** `0`, a line break and an empty line. */
  lemma {:induction false} LastChunkAt(s: seq<Byte>, pos: nat)
    requires pos + 5 <= |s| && s[pos] == 48
    requires s[pos + 1] == 13 && s[pos + 2] == 10 && s[pos + 3] == 13 && s[pos + 4] == 10
    ensures HttpProxy.Body(HttpProxy.ChunkSize, s, pos) == Some(pos + 5)
  {
    LineAt(s, pos, pos + 1);
    LineAt(s, pos + 3, pos + 3);
    OneDigit(48);
    assert s[pos..pos + 1] == [48];
    HttpProxy.BodyAtLast(HttpProxy.ChunkSize, s, pos, pos + 1);
  }

  // ================================================================ the rest

  /** No run of an upload of 2^32 - 1 bytes ends with a client that is done. */
  lemma {:induction false} EndlessUpload(states: seq<Speedtest.State>, es: seq<Speedtest.Event>)
    requires Speedtest.IsRun(Speedtest.Config(true, Speedtest.U32_MAX, 1, 0), states, es)
    requires forall e :: !Speedtest.Enabled(Speedtest.Config(true, Speedtest.U32_MAX, 1, 0), states[|es|], e)
    ensures states[|es|].client != Speedtest.CDone(Speedtest.U32_MAX)
  {
    Speedtest.RunsComplete(Speedtest.Config(true, Speedtest.U32_MAX, 1, 0), states, es);
  }

  /** The question for the root name, announced as two. */
  lemma {:induction false} RootQuestion(query: seq<Byte>)
    requires |query| == 17 && query[4] == 0 && query[5] == 2 && query[12] == 0
    ensures Dns.FirstQuestion(query).Ok? && Dns.Word(query, 4) == 2
  {
    assert Dns.NameEnd(query, 12) == Ok(13);
  }

  /** A query that announces two questions: the reply announces two and holds one. */
  lemma {:induction false} TwoQuestions()
    ensures
      var query: seq<Byte> := [0, 0, 1, 0, 0, 2, 0, 0, 0, 0, 0, 0, 0, 0, 1, 0, 1];
      var r := Dns.Reply(query, 0);
      r.Ok? && |r.value| >= 12 && Dns.Word(r.value, 4) == 2 && Dns.Questions(r.value, 12) == Some(1)
  {
    var query: seq<Byte> := [0, 0, 1, 0, 0, 2, 0, 0, 0, 0, 0, 0, 0, 0, 1, 0, 1];
    RootQuestion(query);
    Dns.ReplyHeader(query, 0);
  }

  /** `user:` does not survive a share link. */
  lemma {:induction false} EmptyPasswordDropped(also: Userinfo.Escapes, previous: seq<Byte>)
    requires Userinfo.LeavesEscapes(also)
    ensures
      var auth: seq<Byte> := [117, 115, 101, 114, 58];
      Userinfo.DecodeAuth(also, previous, Userinfo.ShareUserinfo(auth)) != Ok(auth)
  {
    var user: seq<Byte> := [117, 115, 101, 114];
    var auth: seq<Byte> := [117, 115, 101, 114, 58];
    assert auth == Userinfo.Join(user, Some([]));
    Userinfo.SplitJoin(user, Some([]));
    AsciiIsUtf8(auth);
    Userinfo.AuthRoundTripIff(also, previous, auth);
  }

  lemma {:induction false} AsciiIsUtf8(s: seq<Byte>)
    requires forall i | 0 <= i < |s| :: s[i] < 0x80
    ensures ValidUtf8(s)
  {
    if s != [] {
      AsciiIsUtf8(s[1..]);
    }
  }
}
