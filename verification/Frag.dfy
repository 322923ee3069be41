/** Splitting a UDP message so that every datagram fits: `frag_udp_message` in core/src/frag.rs. */
module Frag {
  import opened Base
  import opened Proxy

  /** What `send_udp_message` checks first: the header leaves room for payload. */
  predicate Sendable(m: UdpMessage, maxSize: nat) {
    Encodable(m.addr) && maxSize > m.HeaderSize()
  }

  /** The pieces of the payload. */
  function Pieces(m: UdpMessage, maxSize: nat): seq<seq<Byte>>
    requires Sendable(m, maxSize)
  {
    Chunks(m.data, maxSize - m.HeaderSize())
  }

  /** One fragment; the index and the count are both truncated to a u8. */
  function Fragment(m: UdpMessage, pieces: seq<seq<Byte>>, i: nat): UdpMessage
    requires i < |pieces|
  {
    m.(fragId := i % 256, fragCount := |pieces| % 256, data := pieces[i])
  }

  function Fragments(m: UdpMessage, maxSize: nat): (frs: seq<UdpMessage>)
    requires Sendable(m, maxSize)
  {
    if m.Size() <= maxSize then [m]
    else
      var pieces := Pieces(m, maxSize);
      seq(|pieces|, i requires 0 <= i < |pieces| => Fragment(m, pieces, i))
  }

  function Payloads(ms: seq<UdpMessage>): (ps: seq<seq<Byte>>)
    ensures |ps| == |ms|
  {
    seq(|ms|, i requires 0 <= i < |ms| => ms[i].data)
  }

  /** `frag_udp_message`. */
  method FragUdpMessage(m: UdpMessage, maxSize: nat) returns (fragments: seq<UdpMessage>)
    requires Sendable(m, maxSize)
    ensures fragments == Fragments(m, maxSize)
  {
    if m.Size() <= maxSize {
      return [m];
    }
    var maxPayload := maxSize - m.HeaderSize();
    var fragCount := DivCeil(|m.data|, maxPayload) % 256;
    fragments := [];
    var offset := 0;
    var fragId := 0;
    while offset < |m.data|
      invariant offset == Offset(maxPayload, |m.data|, |fragments|)
      invariant fragId == |fragments| % 256
      invariant Built(m, maxPayload, fragCount, fragments)
      decreases |m.data| - offset
    {
      ghost var i := |fragments|;
      WrapNext(i);
      BuiltNext(m, maxPayload, fragCount, fragments);
      var payloadSize := Min(|m.data| - offset, maxPayload);
      var fragment := m.(fragId := fragId, fragCount := fragCount, data := m.data[offset..offset + payloadSize]);
      assert fragment == Emitted(m, maxPayload, fragCount, i);
      fragments := fragments + [fragment];
      offset := offset + payloadSize;
      fragId := (fragId + 1) % 256;
    }
    BuiltAll(m, maxSize, fragments);
  }

  /** The fragment cut at the `i`-th offset. */
  ghost function Emitted(m: UdpMessage, size: nat, fragCount: Byte, i: nat): UdpMessage
    requires Offset(size, |m.data|, i) < |m.data|
  {
    var offset := Offset(size, |m.data|, i);
    m.(fragId := i % 256, fragCount := fragCount, data := m.data[offset..offset + Min(|m.data| - offset, size)])
  }

  /** The loop has emitted one fragment for each offset it has passed. */
  ghost predicate Built(m: UdpMessage, size: nat, fragCount: Byte, fragments: seq<UdpMessage>) {
    forall i | 0 <= i < |fragments| ::
      Offset(size, |m.data|, i) < |m.data| && fragments[i] == Emitted(m, size, fragCount, i)
  }

  lemma {:induction false} BuiltNext(m: UdpMessage, size: nat, fragCount: Byte, fragments: seq<UdpMessage>)
    requires Built(m, size, fragCount, fragments)
    requires Offset(size, |m.data|, |fragments|) < |m.data|
    ensures Built(m, size, fragCount, fragments + [Emitted(m, size, fragCount, |fragments|)])
  {
  }

  lemma {:induction false} BuiltAll(m: UdpMessage, maxSize: nat, fragments: seq<UdpMessage>)
    requires Sendable(m, maxSize) && m.Size() > maxSize
    requires var size := maxSize - m.HeaderSize();
             && Built(m, size, DivCeil(|m.data|, size) % 256, fragments)
             && Offset(size, |m.data|, |fragments|) >= |m.data|
    ensures fragments == Fragments(m, maxSize)
  {
    forall i | 0 <= i < |fragments|
      ensures i < |Pieces(m, maxSize)| && fragments[i] == Fragments(m, maxSize)[i]
    {
      NextFragment(m, maxSize, i);
    }
    if fragments != [] {
      NextFragment(m, maxSize, |fragments| - 1);
    }
    AllPieces(m, maxSize, |fragments|);
  }

  /** The fragment the loop builds at offset `i` is number `i`. */
  lemma {:induction false} NextFragment(m: UdpMessage, maxSize: nat, i: nat)
    requires Sendable(m, maxSize) && m.Size() > maxSize
    requires Offset(maxSize - m.HeaderSize(), |m.data|, i) < |m.data|
    ensures i < |Fragments(m, maxSize)|
    ensures
      var size := maxSize - m.HeaderSize();
      Fragments(m, maxSize)[i] == Emitted(m, size, DivCeil(|m.data|, size) % 256, i)
  {
    NextPiece(m, maxSize, i);
    ChunkCount(m.data, maxSize - m.HeaderSize());
  }

  /** A u8 counter that wraps counts modulo 256. */
  lemma {:induction false} WrapNext(i: nat)
    ensures (i % 256 + 1) % 256 == (i + 1) % 256
  {
  }

  /** Where piece `i` starts: `size` bytes after the one before it, or at the end of the payload. */
  ghost function Offset(size: nat, length: nat, i: nat): nat {
    if i == 0 then 0 else Min(Offset(size, length, i - 1) + size, length)
  }

  lemma {:induction false} OffsetIsProduct(size: nat, length: nat, i: nat)
    ensures i * size >= 0
    ensures Offset(size, length, i) == Min(i * size, length)
  {
    if i > 0 {
      OffsetIsProduct(size, length, i - 1);
      assert i * size == (i - 1) * size + size;
    }
  }

  /** The payload bytes from offset `i` on start with piece `i`. */
  lemma {:induction false} NextPiece(m: UdpMessage, maxSize: nat, i: nat)
    requires Sendable(m, maxSize)
    requires Offset(maxSize - m.HeaderSize(), |m.data|, i) < |m.data|
    ensures
      var size := maxSize - m.HeaderSize();
      var offset := Offset(size, |m.data|, i);
      && i < |Pieces(m, maxSize)|
      && Pieces(m, maxSize)[i] == m.data[offset..offset + Min(|m.data| - offset, size)]
  {
    var size := maxSize - m.HeaderSize();
    OffsetIsProduct(size, |m.data|, i);
    ChunkCount(m.data, size);
    MulMonotone(|Pieces(m, maxSize)|, i, size);
    ChunkAt(m.data, size, i);
  }

  lemma {:induction false} AllPieces(m: UdpMessage, maxSize: nat, i: nat)
    requires Sendable(m, maxSize)
    requires i <= |Pieces(m, maxSize)|
    requires Offset(maxSize - m.HeaderSize(), |m.data|, i) >= |m.data|
    ensures i == |Pieces(m, maxSize)|
  {
    OffsetIsProduct(maxSize - m.HeaderSize(), |m.data|, i);
    if i < |Pieces(m, maxSize)| {
      ChunkAt(m.data, maxSize - m.HeaderSize(), i);
    }
  }

  /** A split has at least two pieces, each non-empty and small enough, that concatenate to the payload. */
  lemma {:induction false} PiecesFit(m: UdpMessage, maxSize: nat)
    requires Sendable(m, maxSize) && m.Size() > maxSize
    ensures |Pieces(m, maxSize)| >= 2
    ensures forall p | p in Pieces(m, maxSize) :: 1 <= |p| <= maxSize - m.HeaderSize()
    ensures Concat(Pieces(m, maxSize)) == m.data
  {
    var size := maxSize - m.HeaderSize();
    var pieces := Pieces(m, maxSize);
    ConcatChunks(m.data, size);
    forall i | 0 <= i < |pieces|
      ensures 1 <= |pieces[i]| <= size
    {
      ChunkAt(m.data, size, i);
    }
  }

  /** No datagram is larger than the limit, whatever the number of fragments. */
  lemma {:induction false} FragmentsFit(m: UdpMessage, maxSize: nat)
    requires Sendable(m, maxSize)
    ensures forall f | f in Fragments(m, maxSize) :: f.addr == m.addr && |f.Encode()| <= maxSize
  {
    if m.Size() > maxSize {
      PiecesFit(m, maxSize);
    }
  }

  /** The payloads of the fragments concatenate to the payload, whatever the number of fragments. */
  lemma {:induction false} FragmentsConserve(m: UdpMessage, maxSize: nat)
    requires Sendable(m, maxSize)
    ensures Concat(Payloads(Fragments(m, maxSize))) == m.data
  {
    if m.Size() > maxSize {
      PiecesFit(m, maxSize);
      assert Payloads(Fragments(m, maxSize)) == Pieces(m, maxSize);
    } else {
      assert Payloads([m]) == [m.data];
      ConcatSnoc([], m.data);
      assert [] + [m.data] == [m.data];
    }
  }
}
