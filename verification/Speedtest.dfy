/**
 * The speed test of extras/src/speedtest.rs with a given size: a client and a server that exchange a
 * request, a response, the data and (for uploads) a summary over a duplex pipe of bounded capacity.
 * Every read and write may be partial.
 */
module Speedtest {
  import opened Base

  const CHUNK_SIZE: nat := 64 * 1024
  const TYPE_DOWNLOAD: Byte := 1
  const TYPE_UPLOAD: Byte := 2
  const U32_MAX: U32 := 0xffff_ffff

  /** The status message the server sends: accepted, two bytes of text, "OK". */
  const RESPONSE: seq<Byte> := [0, 0, 2, 79, 75]

  /** One test: its direction and size, the capacity of each half of the pipe, the elapsed time reported. */
  datatype Config = Config(upload: bool, size: U32, capacity: nat, millis: U32)

  // ================================================================ the two programs

  datatype Client =
    | CRequest(pending: seq<Byte>)        // write_all of the request
    | CResponse(got: seq<Byte>)           // read_u8, read_u16, read_exact of the response
    | CData(remaining: nat, total: nat)   // the loop over the data
    | CSummary(got: seq<Byte>)            // read_u32 twice (uploads)
    | CDone(bytes: nat)
    | CRejected

  datatype Server =
    | SRequest(got: seq<Byte>)            // read_exact of the type, read_u32
    | SResponse(pending: seq<Byte>, upload: bool, requested: U32)
    | SSend(inChunk: nat, after: nat)     // write_all of a chunk, and what is left after it
    | SSendEndless(inChunk: nat)
    | SReceive(remaining: nat, requested: U32)
    | SReceiveEndless                     // until the client shuts its side down
    | SSummary(pending: seq<Byte>)
    | SDone
    | SFailed

  /** Both programs and the bytes in flight in each direction. */
  datatype State = State(client: Client, server: Server, up: seq<Byte>, down: seq<Byte>)

  function Request(cfg: Config): seq<Byte> {
    [if cfg.upload then TYPE_UPLOAD else TYPE_DOWNLOAD] + BigEndian(cfg.size, 4)
  }

  function Summary(cfg: Config, requested: U32): seq<Byte> {
    BigEndian(cfg.millis, 4) + BigEndian(requested, 4)
  }

  /** A number of 32 bits, most significant byte first. */
  function Bytes4(n: U32): seq<Byte> {
    [n / 0x100_0000, n / 0x1_0000 % 256, n / 0x100 % 256, n % 256]
  }

  lemma {:induction false} Bytes4Are(n: U32)
    ensures BigEndian(n, 4) == Bytes4(n)
  {
    BigEndian4(n);
  }

  /** The bytes on the wire: type 2 or 1 and the size; success with the letters of `OK`; milliseconds and the size. */
  lemma {:induction false} WireBytes(cfg: Config, requested: U32)
    ensures Request(cfg) == [if cfg.upload then 2 else 1] + Bytes4(cfg.size)
    ensures RESPONSE == [0] + [0, 2] + [79, 75]
    ensures Summary(cfg, requested) == Bytes4(cfg.millis) + Bytes4(requested)
  {
    Bytes4Are(cfg.size);
    Bytes4Are(cfg.millis);
    Bytes4Are(requested);
  }

  function Initial(cfg: Config): State {
    State(CRequest(Request(cfg)), SRequest([]), [], [])
  }

  /** How much the client wants to read of a response it has partly read. */
  function ResponseWant(got: seq<Byte>): nat {
    if |got| < 1 then 1
    else if |got| < 3 then 3 - |got|
    else if |got| < 3 + FromBigEndian(got[1..3]) then 3 + FromBigEndian(got[1..3]) - |got|
    else 0
  }

  function ClientData(cfg: Config): Client {
    if cfg.size > 0 then CData(cfg.size, 0) else if cfg.upload then CSummary([]) else CDone(0)
  }

  function ServerChunk(left: nat): Server {
    if left == 0 then SDone else SSend(Min(left, CHUNK_SIZE), left - Min(left, CHUNK_SIZE))
  }

  function ServerData(cfg: Config, upload: bool, requested: U32): Server {
    if !upload then (if requested == U32_MAX then SSendEndless(CHUNK_SIZE) else ServerChunk(requested))
    else if requested == U32_MAX then SReceiveEndless
    else if requested == 0 then SSummary(Summary(cfg, requested))
    else SReceive(requested, requested)
  }

  function ServerParsed(got: seq<Byte>): Server
    requires got != []
  {
    if got[0] != TYPE_DOWNLOAD && got[0] != TYPE_UPLOAD then SFailed
    else if |got| < 5 then SRequest(got)
    else
      FromBigEndianBound(got[1..5]);
      assert Pow256(4) == 256 * Pow256(3) && Pow256(3) == 256 * Pow256(2) && Pow256(2) == 0x1_0000;
      SResponse(RESPONSE, got[0] == TYPE_UPLOAD, FromBigEndian(got[1..5]))
  }

  // ================================================================ steps

  /** One read or write of `k` bytes; `payload` is what is written when it is test data. */
  datatype Event = Event(byClient: bool, k: nat, payload: seq<Byte>)

  /** What a program wants to write next: at most this much. */
  function ClientWrites(cfg: Config, c: Client): nat {
    match c
    case CRequest(pending) => |pending|
    case CData(remaining, _) => if cfg.upload then Min(remaining, CHUNK_SIZE) else 0
    case _ => 0
  }

  function ClientReads(cfg: Config, c: Client): nat {
    match c
    case CResponse(got) => ResponseWant(got)
    case CData(remaining, _) => if cfg.upload then 0 else Min(remaining, CHUNK_SIZE)
    case CSummary(got) => if |got| < 4 then 4 - |got| else if |got| < 8 then 8 - |got| else 0
    case _ => 0
  }

  function ServerWrites(s: Server): nat {
    match s
    case SResponse(pending, _, _) => |pending|
    case SSend(inChunk, _) => inChunk
    case SSendEndless(inChunk) => inChunk
    case SSummary(pending) => |pending|
    case _ => 0
  }

  function ServerReads(s: Server): nat {
    match s
    case SRequest(got) => if |got| < 1 then 1 else if |got| < 5 then 5 - |got| else 0
    case SReceive(remaining, _) => Min(remaining, CHUNK_SIZE)
    case SReceiveEndless => CHUNK_SIZE
    case _ => 0
  }

  /** Of a whole request the server takes the direction from the type, and refuses every type but 1 and 2. */
  lemma {:induction false} AnyRequestParses(kind: Byte, size: U32)
    ensures ServerParsed([kind] + Bytes4(size)) ==
            if kind == 1 || kind == 2 then SResponse(RESPONSE, kind == 2, size) else SFailed
  {
    var got := [kind] + Bytes4(size);
    assert got[1..5] == Bytes4(size);
    Bytes4Are(size);
    assert Pow256(4) == 0x1_0000_0000;
    FromBigEndianInverts(size, 4);
  }

  predicate CanWrite(cfg: Config, wants: nat, pipe: seq<Byte>, k: nat) {
    1 <= k <= wants && |pipe| + k <= cfg.capacity
  }

  predicate CanRead(wants: nat, pipe: seq<Byte>, k: nat) {
    1 <= k <= wants && k <= |pipe|
  }

  predicate Enabled(cfg: Config, s: State, e: Event) {
    if e.byClient then
      || (CanWrite(cfg, ClientWrites(cfg, s.client), s.up, e.k) && (s.client.CData? ==> |e.payload| == e.k))
      || CanRead(ClientReads(cfg, s.client), s.down, e.k)
    else
      || (CanWrite(cfg, ServerWrites(s.server), s.down, e.k)
          && (s.server.SSend? || s.server.SSendEndless? ==> |e.payload| == e.k))
      || CanRead(ServerReads(s.server), s.up, e.k)
  }

  function ClientStep(cfg: Config, s: State, k: nat, payload: seq<Byte>): State
    requires Enabled(cfg, s, Event(true, k, payload))
  {
    match s.client
    case CRequest(pending) =>
      s.(up := s.up + pending[..k],
         client := if k == |pending| then CResponse([]) else CRequest(pending[k..]))
    case CResponse(got) =>
      var now := got + s.down[..k];
      s.(down := s.down[k..],
         client := if ResponseWant(now) > 0 then CResponse(now)
                   else if now[0] == 0 then ClientData(cfg) else CRejected)
    case CData(remaining, total) =>
      if cfg.upload then
        s.(up := s.up + payload,
           client := if k == remaining then CSummary([]) else CData(remaining - k, total + k))
      else
        s.(down := s.down[k..],
           client := if k == remaining then CDone(total + k) else CData(remaining - k, total + k))
    case CSummary(got) =>
      var now := got + s.down[..k];
      s.(down := s.down[k..],
         client := if |now| < 8 then CSummary(now) else CDone(FromBigEndian(now[4..8])))
  }

  /** A response with any text is read to its end; status 0 starts the data and any other ends the test. */
  lemma {:induction false} ResponseDecides(cfg: Config, s: State, k: nat, payload: seq<Byte>, status: Byte,
                                           text: seq<Byte>)
    requires Enabled(cfg, s, Event(true, k, payload)) && s.client.CResponse? && |text| < 0x1_0000 && k <= |s.down|
    requires s.client.got + s.down[..k] == [status] + BigEndian(|text|, 2) + text
    ensures ClientStep(cfg, s, k, payload).client == if status == 0 then ClientData(cfg) else CRejected
  {
    var now := s.client.got + s.down[..k];
    assert now[1..3] == BigEndian(|text|, 2) && now[0] == status;
    FromBigEndianInverts(|text|, 2);
  }

  function ServerStep(cfg: Config, s: State, k: nat, payload: seq<Byte>): State
    requires Enabled(cfg, s, Event(false, k, payload))
  {
    match s.server
    case SRequest(got) => s.(up := s.up[k..], server := ServerParsed(got + s.up[..k]))
    case SResponse(pending, upload, requested) =>
      s.(down := s.down + pending[..k],
         server := if k == |pending| then ServerData(cfg, upload, requested)
                   else SResponse(pending[k..], upload, requested))
    case SSend(inChunk, after) =>
      s.(down := s.down + payload,
         server := if k == inChunk then ServerChunk(after) else SSend(inChunk - k, after))
    case SSendEndless(inChunk) =>
      s.(down := s.down + payload, server := SSendEndless(if k == inChunk then CHUNK_SIZE else inChunk - k))
    case SReceive(remaining, requested) =>
      s.(up := s.up[k..],
         server := if k == remaining then SSummary(Summary(cfg, requested)) else SReceive(remaining - k, requested))
    case SReceiveEndless => s.(up := s.up[k..])
    case SSummary(pending) =>
      s.(down := s.down + pending[..k], server := if k == |pending| then SDone else SSummary(pending[k..]))
  }

  function Step(cfg: Config, s: State, e: Event): State
    requires Enabled(cfg, s, e)
  {
    if e.byClient then ClientStep(cfg, s, e.k, e.payload) else ServerStep(cfg, s, e.k, e.payload)
  }

  // ================================================================ what every reachable state satisfies

  /** Bytes written and read so far by the client and by the server. */
  datatype Counts = Counts(cw: nat, cr: nat, sw: nat, sr: nat)

  /** The server never sends a summary: an upload of the size that stands for "until told to stop". */
  predicate Unending(cfg: Config) {
    cfg.upload && cfg.size == U32_MAX
  }

  /** What is fixed about the bytes the server sends: the response and, after it, the summary of an upload. */
  function DownHeader(cfg: Config): seq<Byte> {
    RESPONSE + if cfg.upload && !Unending(cfg) then Summary(cfg, cfg.size) else []
  }

  /** The pipe holds bytes `r..w` of a stream that begins with `header`. */
  predicate Carries(pipe: seq<Byte>, r: nat, w: nat, header: seq<Byte>) {
    && r <= w && |pipe| == w - r
    && forall i | r <= i < w && i < |header| :: pipe[i - r] == header[i]
  }

  /** The client after writing `w` and reading `r` bytes. */
  predicate ClientAt(cfg: Config, c: Client, w: nat, r: nat) {
    match c
    case CRequest(pending) => w < 5 && r == 0 && pending == Request(cfg)[w..]
    case CResponse(got) => w == 5 && r < 5 && got == RESPONSE[..r]
    case CData(remaining, total) =>
      && remaining + total == cfg.size && remaining > 0
      && if cfg.upload then w == 5 + total && r == 5 else w == 5 && r == 5 + total
    case CSummary(got) =>
      cfg.upload && w == 5 + cfg.size && 5 <= r < 13 && |DownHeader(cfg)| >= r && got == DownHeader(cfg)[5..r]
    case CDone(bytes) =>
      && bytes == cfg.size
      && if cfg.upload then w == 5 + cfg.size && r == 13 else w == 5 && r == 5 + cfg.size
    case CRejected => false
  }

  /** The server after writing `w` and reading `r` bytes. */
  predicate ServerAt(cfg: Config, s: Server, w: nat, r: nat) {
    match s
    case SRequest(got) => w == 0 && r < 5 && got == Request(cfg)[..r]
    case SResponse(pending, upload, requested) =>
      w < 5 && r == 5 && pending == RESPONSE[w..] && upload == cfg.upload && requested == cfg.size
    case SSend(inChunk, after) =>
      !cfg.upload && cfg.size != U32_MAX && r == 5 && w >= 5 && inChunk > 0 && w - 5 + inChunk + after == cfg.size
    case SSendEndless(inChunk) => !cfg.upload && cfg.size == U32_MAX && r == 5 && w >= 5 && inChunk > 0
    case SReceive(remaining, requested) =>
      && cfg.upload && cfg.size != U32_MAX && w == 5 && requested == cfg.size
      && r >= 5 && remaining > 0 && r - 5 + remaining == cfg.size
    case SReceiveEndless => Unending(cfg) && w == 5 && r >= 5
    case SSummary(pending) =>
      cfg.upload && cfg.size != U32_MAX && r == 5 + cfg.size && 5 <= w < 13 && pending == DownHeader(cfg)[w..]
    case SDone =>
      && cfg.size != U32_MAX
      && if cfg.upload then w == 13 && r == 5 + cfg.size else w == 5 + cfg.size && r == 5
    case SFailed => false
  }

  ghost predicate Inv(cfg: Config, s: State, n: Counts) {
    && cfg.capacity >= 1
    && ClientAt(cfg, s.client, n.cw, n.cr) && ServerAt(cfg, s.server, n.sw, n.sr)
    && Carries(s.up, n.sr, n.cw, Request(cfg)) && Carries(s.down, n.cr, n.sw, DownHeader(cfg))
    && |s.up| <= cfg.capacity && |s.down| <= cfg.capacity
  }

  function Counted(n: Counts, cfg: Config, s: State, e: Event): Counts {
    if e.byClient then
      if ClientWrites(cfg, s.client) > 0 then n.(cw := n.cw + e.k) else n.(cr := n.cr + e.k)
    else
      if ServerWrites(s.server) > 0 then n.(sw := n.sw + e.k) else n.(sr := n.sr + e.k)
  }

  lemma CarriesWrite(pipe: seq<Byte>, r: nat, w: nat, header: seq<Byte>, bytes: seq<Byte>)
    requires Carries(pipe, r, w, header)
    requires forall i | 0 <= i < |bytes| && w + i < |header| :: bytes[i] == header[w + i]
    ensures Carries(pipe + bytes, r, w + |bytes|, header)
  {
    forall i | r <= i < w + |bytes| && i < |header|
      ensures (pipe + bytes)[i - r] == header[i]
    {
      if i >= w {
        assert bytes[i - w] == header[w + (i - w)];
      }
    }
  }

  lemma CarriesRead(pipe: seq<Byte>, r: nat, w: nat, header: seq<Byte>, k: nat)
    requires Carries(pipe, r, w, header) && k <= |pipe|
    ensures Carries(pipe[k..], r + k, w, header)
    ensures r + k <= |header| ==> header[..r] + pipe[..k] == header[..r + k]
  {
  }

  lemma RequestParses(cfg: Config)
    ensures |Request(cfg)| == 5 && FromBigEndian(Request(cfg)[1..5]) == cfg.size
  {
    assert Pow256(4) == 256 * Pow256(3) && Pow256(3) == 256 * Pow256(2) && Pow256(2) == 0x1_0000;
    FromBigEndianInverts(cfg.size, 4);
    assert Request(cfg)[1..5] == BigEndian(cfg.size, 4);
  }

  lemma SummaryParses(cfg: Config)
    ensures |Summary(cfg, cfg.size)| == 8 && FromBigEndian(Summary(cfg, cfg.size)[4..8]) == cfg.size
  {
    assert Pow256(4) == 256 * Pow256(3) && Pow256(3) == 256 * Pow256(2) && Pow256(2) == 0x1_0000;
    FromBigEndianInverts(cfg.size, 4);
    assert Summary(cfg, cfg.size)[4..8] == BigEndian(cfg.size, 4);
  }

  lemma ResponseWants(r: nat)
    requires r <= 5
    ensures (ResponseWant(RESPONSE[..r]) == 0) <==> r == 5
    ensures ResponseWant(RESPONSE[..r]) <= 5 - r
  {
    if r >= 3 {
      var len := RESPONSE[..r][1..3];
      assert len == [0, 2];
      assert len[..1] == [0] && FromBigEndian([0]) == FromBigEndian([0][..0]) * 256 + 0;
      assert FromBigEndian(len) == 2;
    }
  }

  // ---------------------------------------------------------------- one step

  lemma {:induction false} ClientRequestStep(cfg: Config, s: State, n: Counts, e: Event)
    requires Inv(cfg, s, n) && e.byClient && Enabled(cfg, s, e) && s.client.CRequest?
    ensures Inv(cfg, Step(cfg, s, e), Counted(n, cfg, s, e))
  {
    RequestParses(cfg);
    CarriesWrite(s.up, n.sr, n.cw, Request(cfg), s.client.pending[..e.k]);
  }

  lemma {:induction false} ClientResponseStep(cfg: Config, s: State, n: Counts, e: Event)
    requires Inv(cfg, s, n) && e.byClient && Enabled(cfg, s, e) && s.client.CResponse?
    ensures Inv(cfg, Step(cfg, s, e), Counted(n, cfg, s, e))
  {
    var r := n.cr + e.k;
    ResponseWants(n.cr);
    CarriesRead(s.down, n.cr, n.sw, DownHeader(cfg), e.k);
    assert DownHeader(cfg)[..n.cr] == RESPONSE[..n.cr] && DownHeader(cfg)[..r] == RESPONSE[..r];
    ResponseWants(r);
    assert DownHeader(cfg)[5..5] == [];
  }

  lemma {:induction false} ClientDataStep(cfg: Config, s: State, n: Counts, e: Event)
    requires Inv(cfg, s, n) && e.byClient && Enabled(cfg, s, e) && s.client.CData?
    ensures Inv(cfg, Step(cfg, s, e), Counted(n, cfg, s, e))
  {
    RequestParses(cfg);
    if cfg.upload {
      CarriesWrite(s.up, n.sr, n.cw, Request(cfg), e.payload);
      assert DownHeader(cfg)[5..5] == [];
    } else {
      CarriesRead(s.down, n.cr, n.sw, DownHeader(cfg), e.k);
    }
  }

  lemma {:induction false} ClientSummaryStep(cfg: Config, s: State, n: Counts, e: Event)
    requires Inv(cfg, s, n) && e.byClient && Enabled(cfg, s, e) && s.client.CSummary?
    ensures Inv(cfg, Step(cfg, s, e), Counted(n, cfg, s, e))
  {
    var header := DownHeader(cfg);
    SummaryParses(cfg);
    CarriesRead(s.down, n.cr, n.sw, header, e.k);
    ServerSent(cfg, s, n);
    var now := s.client.got + s.down[..e.k];
    assert now == header[5..n.cr + e.k] by {
      assert header[..n.cr][5..] == header[5..n.cr];
      assert header[..n.cr + e.k][5..] == header[5..n.cr + e.k];
    }
    if |now| == 8 {
      assert now == Summary(cfg, cfg.size);
    }
  }

  /** How far the server's own position takes it: never past what is fixed, for an upload. */
  lemma {:induction false} ServerSent(cfg: Config, s: State, n: Counts)
    requires Inv(cfg, s, n) && cfg.upload
    ensures n.sw <= |DownHeader(cfg)|
  {
    SummaryParses(cfg);
  }

  lemma {:induction false} ServerRequestStep(cfg: Config, s: State, n: Counts, e: Event)
    requires Inv(cfg, s, n) && !e.byClient && Enabled(cfg, s, e) && s.server.SRequest?
    ensures Inv(cfg, Step(cfg, s, e), Counted(n, cfg, s, e))
  {
    RequestParses(cfg);
    CarriesRead(s.up, n.sr, n.cw, Request(cfg), e.k);
    var now := s.server.got + s.up[..e.k];
    assert now == Request(cfg)[..n.sr + e.k];
    assert now[0] == Request(cfg)[0];
    assert |now| == 5 ==> now == Request(cfg);
    assert RESPONSE[0..] == RESPONSE;
  }

  lemma {:induction false} ServerResponseStep(cfg: Config, s: State, n: Counts, e: Event)
    requires Inv(cfg, s, n) && !e.byClient && Enabled(cfg, s, e) && s.server.SResponse?
    ensures Inv(cfg, Step(cfg, s, e), Counted(n, cfg, s, e))
  {
    SummaryParses(cfg);
    CarriesWrite(s.down, n.cr, n.sw, DownHeader(cfg), s.server.pending[..e.k]);
    assert !Unending(cfg) && cfg.upload ==> DownHeader(cfg)[5..] == Summary(cfg, cfg.size);
  }

  lemma {:induction false} ServerSendStep(cfg: Config, s: State, n: Counts, e: Event)
    requires Inv(cfg, s, n) && !e.byClient && Enabled(cfg, s, e) && (s.server.SSend? || s.server.SSendEndless?)
    ensures Inv(cfg, Step(cfg, s, e), Counted(n, cfg, s, e))
  {
    CarriesWrite(s.down, n.cr, n.sw, DownHeader(cfg), e.payload);
  }

  lemma {:induction false} ServerReceiveStep(cfg: Config, s: State, n: Counts, e: Event)
    requires Inv(cfg, s, n) && !e.byClient && Enabled(cfg, s, e) && (s.server.SReceive? || s.server.SReceiveEndless?)
    ensures Inv(cfg, Step(cfg, s, e), Counted(n, cfg, s, e))
  {
    SummaryParses(cfg);
    CarriesRead(s.up, n.sr, n.cw, Request(cfg), e.k);
    assert !Unending(cfg) ==> DownHeader(cfg)[5..] == Summary(cfg, cfg.size);
  }

  lemma {:induction false} ServerSummaryStep(cfg: Config, s: State, n: Counts, e: Event)
    requires Inv(cfg, s, n) && !e.byClient && Enabled(cfg, s, e) && s.server.SSummary?
    ensures Inv(cfg, Step(cfg, s, e), Counted(n, cfg, s, e))
  {
    SummaryParses(cfg);
    CarriesWrite(s.down, n.cr, n.sw, DownHeader(cfg), s.server.pending[..e.k]);
  }

  /** Every partial read or write of either side keeps the invariant. */
  lemma {:induction false} StepInv(cfg: Config, s: State, n: Counts, e: Event)
    requires Inv(cfg, s, n) && Enabled(cfg, s, e)
    ensures Inv(cfg, Step(cfg, s, e), Counted(n, cfg, s, e))
  {
    if e.byClient {
      match s.client {
        case CRequest(_) => ClientRequestStep(cfg, s, n, e);
        case CResponse(_) => ClientResponseStep(cfg, s, n, e);
        case CData(_, _) => ClientDataStep(cfg, s, n, e);
        case CSummary(_) => ClientSummaryStep(cfg, s, n, e);
      }
    } else {
      match s.server {
        case SRequest(_) => ServerRequestStep(cfg, s, n, e);
        case SResponse(_, _, _) => ServerResponseStep(cfg, s, n, e);
        case SSend(_, _) => ServerSendStep(cfg, s, n, e);
        case SSendEndless(_) => ServerSendStep(cfg, s, n, e);
        case SReceive(_, _) => ServerReceiveStep(cfg, s, n, e);
        case SReceiveEndless => ServerReceiveStep(cfg, s, n, e);
        case SSummary(_) => ServerSummaryStep(cfg, s, n, e);
      }
    }
  }

  // ---------------------------------------------------------------- progress

  /** What is left to move at most: a bound on the bytes still to be written and read by both sides. */
  function Measure(cfg: Config, n: Counts): int {
    2 * (5 + cfg.size) + 2 * (13 + cfg.size + cfg.capacity) - n.cw - n.cr - n.sw - n.sr
  }

  lemma {:induction false} MeasureNonNegative(cfg: Config, s: State, n: Counts)
    requires Inv(cfg, s, n)
    ensures Measure(cfg, n) >= 0
  {
  }

  /** No deadlock: short of an unending upload, while the client is not done somebody can move. */
  lemma {:induction false} SomebodyCanMove(cfg: Config, s: State, n: Counts)
    requires Inv(cfg, s, n) && !s.client.CDone? && !Unending(cfg)
    ensures exists e :: Enabled(cfg, s, e)
  {
    RequestParses(cfg);
    SummaryParses(cfg);
    if ClientWrites(cfg, s.client) > 0 && |s.up| < cfg.capacity {
      assert Enabled(cfg, s, Event(true, 1, [0]));
    } else if ClientReads(cfg, s.client) > 0 && s.down != [] {
      assert Enabled(cfg, s, Event(true, 1, []));
    } else {
      ClientWants(cfg, s, n);
      ServerCanMove(cfg, s, n);
    }
  }

  /** A client that is not done wants to write or to read. */
  lemma {:induction false} ClientWants(cfg: Config, s: State, n: Counts)
    requires Inv(cfg, s, n) && !s.client.CDone?
    ensures ClientWrites(cfg, s.client) > 0 || ClientReads(cfg, s.client) > 0
  {
    RequestParses(cfg);
    if s.client.CResponse? {
      ResponseWants(n.cr);
    }
  }

  /** When the client is blocked, the server is not. */
  lemma {:induction false} ServerCanMove(cfg: Config, s: State, n: Counts)
    requires Inv(cfg, s, n) && !s.client.CDone? && !Unending(cfg)
    requires ClientWrites(cfg, s.client) > 0 || ClientReads(cfg, s.client) > 0
    requires ClientWrites(cfg, s.client) > 0 ==> |s.up| == cfg.capacity
    requires ClientReads(cfg, s.client) > 0 ==> s.down == []
    ensures exists e :: Enabled(cfg, s, e)
  {
    RequestParses(cfg);
    SummaryParses(cfg);
    if ServerReads(s.server) > 0 {
      assert Enabled(cfg, s, Event(false, 1, []));
    } else {
      assert Enabled(cfg, s, Event(false, 1, [0]));
    }
  }

  /**
   * A client that is done has the right number. The server is done too and nothing is left in the pipe,
   * unless the client asked for the endless download: then the server still sends.
   */
  lemma {:induction false} DoneMeansAll(cfg: Config, s: State, n: Counts)
    requires Inv(cfg, s, n) && s.client.CDone?
    ensures s.client.bytes == cfg.size && !Unending(cfg)
    ensures cfg.size != U32_MAX ==> s.server.SDone? && s.up == [] && s.down == []
    ensures cfg.size == U32_MAX ==> s.server.SSendEndless? && s.up == []
  {
    SummaryParses(cfg);
  }

  // ================================================================ whole runs

  ghost predicate IsRun(cfg: Config, states: seq<State>, es: seq<Event>) {
    && |states| == |es| + 1 && states[0] == Initial(cfg)
    && forall i | 0 <= i < |es| :: Enabled(cfg, states[i], es[i]) && states[i + 1] == Step(cfg, states[i], es[i])
  }

  lemma {:induction false} InitialInv(cfg: Config)
    requires cfg.capacity >= 1
    ensures Inv(cfg, Initial(cfg), Counts(0, 0, 0, 0))
  {
    RequestParses(cfg);
    assert Request(cfg)[0..] == Request(cfg);
  }

  /** Along every run the invariant holds and every step uses up some of the measure. */
  lemma {:induction false} RunInv(cfg: Config, states: seq<State>, es: seq<Event>, i: nat) returns (n: Counts)
    requires cfg.capacity >= 1 && IsRun(cfg, states, es) && i <= |es|
    ensures Inv(cfg, states[i], n)
    ensures i + Measure(cfg, n) <= Measure(cfg, Counts(0, 0, 0, 0))
  {
    if i == 0 {
      InitialInv(cfg);
      n := Counts(0, 0, 0, 0);
    } else {
      var before := RunInv(cfg, states, es, i - 1);
      n := Moved(cfg, states[i - 1], before, es[i - 1], states[i]);
    }
  }

  lemma {:induction false} Moved(cfg: Config, s: State, n: Counts, e: Event, s': State) returns (n': Counts)
    requires Inv(cfg, s, n) && Enabled(cfg, s, e) && s' == Step(cfg, s, e)
    ensures Inv(cfg, s', n') && Measure(cfg, n') < Measure(cfg, n)
  {
    StepInv(cfg, s, n, e);
    n' := Counted(n, cfg, s, e);
    CountedMore(cfg, s, n, e);
  }

  lemma {:induction false} CountedMore(cfg: Config, s: State, n: Counts, e: Event)
    requires Enabled(cfg, s, e)
    ensures Measure(cfg, Counted(n, cfg, s, e)) < Measure(cfg, n)
  {
  }

  /**
   * Every run is finite, and a run that cannot go on has ended with the client reporting exactly the
   * requested size - if and only if it is not an upload of 2^32 - 1 bytes, which always deadlocks: the
   * server waits for the end of a stream that the client, waiting for the summary, never ends.
   */
  lemma {:induction false} RunsComplete(cfg: Config, states: seq<State>, es: seq<Event>)
    requires cfg.capacity >= 1 && IsRun(cfg, states, es)
    ensures |es| <= Measure(cfg, Counts(0, 0, 0, 0))
    ensures (forall e :: !Enabled(cfg, states[|es|], e)) ==>
              (states[|es|].client == CDone(cfg.size) <==> !Unending(cfg))
  {
    var n := RunInv(cfg, states, es, |es|);
    var s := states[|es|];
    MeasureNonNegative(cfg, s, n);
    if s.client.CDone? {
      DoneMeansAll(cfg, s, n);
    } else if !Unending(cfg) {
      SomebodyCanMove(cfg, s, n);
    }
  }
}
