/** The Salamander packet obfuscation of extras/src/obfs.rs and the batching socket of core/src/socket.rs. */
module Salamander {
  import opened Base

  const SALT_LEN: nat := 8
  const KEY_LEN: nat := 32

  type Key = k: seq<Byte> | |k| == KEY_LEN witness seq(KEY_LEN, _ => 0)

  type Salt = s: seq<Byte> | |s| == SALT_LEN witness seq(SALT_LEN, _ => 0)

  /** The digest of the shared secret and a salt; any function will do. */
  type KeyOf = Salt -> Key

  // ================================================================ one segment

  function Mask(key: Key, data: seq<Byte>): (s: seq<Byte>)
    ensures |s| == |data|
  {
    seq(|data|, i requires 0 <= i < |data| => Xor(data[i], key[i % KEY_LEN]))
  }

  function Seal(keyOf: KeyOf, salt: Salt, data: seq<Byte>): (s: seq<Byte>)
    ensures |s| == |data| + SALT_LEN
  {
    salt + Mask(keyOf(salt), data)
  }

  function Unseal(keyOf: KeyOf, segment: seq<Byte>): (s: seq<Byte>)
    requires |segment| >= SALT_LEN
    ensures |s| == |segment| - SALT_LEN
  {
    Mask(keyOf(segment[..SALT_LEN]), segment[SALT_LEN..])
  }

  /** Bit by bit, `masked` differs from `plain` exactly where the key, repeated, has a one. */
  ghost predicate Masks(key: Key, plain: seq<Byte>, masked: seq<Byte>) {
    && |masked| == |plain|
    && forall i, j | 0 <= i < |plain| && 0 <= j < 8 :: MaskedBit(key, plain, masked, i, j)
  }

  ghost predicate MaskedBit(key: Key, plain: seq<Byte>, masked: seq<Byte>, i: nat, j: nat)
    requires i < |plain| && i < |masked|
  {
    Bit(masked[i], j) == 1 <==> Bit(plain[i], j) != Bit(key[i % 32], j)
  }

  lemma {:induction false} MaskMasks(key: Key, data: seq<Byte>)
    ensures Masks(key, data, Mask(key, data))
  {
    forall i, j | 0 <= i < |data| && 0 <= j < 8
      ensures MaskedBit(key, data, Mask(key, data), i, j)
    {
      BitOfXor(data[i], key[i % 32], 8, j);
    }
  }

  /** Two keys give the same packet exactly when they agree on the bytes that the payload uses. */
  lemma {:induction false} KeysTellApart(key: Key, other: Key, data: seq<Byte>)
    ensures Mask(key, data) == Mask(other, data) <==> forall i | 0 <= i < |data| && i < 32 :: key[i] == other[i]
  {
    forall i | 0 <= i < |data|
      ensures Mask(key, data)[i] == Mask(other, data)[i] <==> key[i % 32] == other[i % 32]
    {
      XorInjective(data[i], key[i % 32], other[i % 32]);
    }
    if forall i | 0 <= i < |data| && i < 32 :: key[i] == other[i] {
      assert forall i | 0 <= i < |data| :: key[i % 32] == other[i % 32];
    }
    if Mask(key, data) == Mask(other, data) {
      forall i | 0 <= i < |data| && i < 32
        ensures key[i] == other[i]
      {
        assert Mask(key, data)[i] == Mask(other, data)[i];
      }
    }
  }

  /** Unsealing inverts sealing, for every key function, salt and payload. */
  lemma {:induction false} UnsealSeal(keyOf: KeyOf, salt: Salt, data: seq<Byte>)
    ensures Unseal(keyOf, Seal(keyOf, salt, data)) == data
  {
    var s := Seal(keyOf, salt, data);
    assert s[..SALT_LEN] == salt && s[SALT_LEN..] == Mask(keyOf(salt), data);
    forall i | 0 <= i < |data|
      ensures Unseal(keyOf, s)[i] == data[i]
    {
      XorTwice(data[i], keyOf(salt)[i % KEY_LEN]);
    }
  }

  /** `obfuscate` into `output`, with the random salt as an argument; 0 means it does not fit. */
  method Obfuscate(keyOf: KeyOf, salt: Salt, input: seq<Byte>, output: array<Byte>) returns (n: nat)
    modifies output
    ensures output.Length < |input| + SALT_LEN ==> n == 0 && output[..] == old(output[..])
    ensures output.Length >= |input| + SALT_LEN ==>
              n == |input| + SALT_LEN && output[..n] == Seal(keyOf, salt, input)
    ensures output.Length >= |input| + SALT_LEN ==>
              output[..8] == salt && Masks(keyOf(salt), input, output[8..n])
    ensures forall i | n <= i < output.Length :: output[i] == old(output[i])
  {
    n := |input| + SALT_LEN;
    if output.Length < n {
      return 0;
    }
    forall i | 0 <= i < SALT_LEN {
      output[i] := salt[i];
    }
    var key := keyOf(salt);
    for index := 0 to |input|
      invariant output[..SALT_LEN] == salt
      invariant output[SALT_LEN..SALT_LEN + index] == Mask(key, input)[..index]
      invariant forall i | SALT_LEN + index <= i < output.Length :: output[i] == old(output[i])
    {
      output[index + SALT_LEN] := Xor(input[index], key[index % KEY_LEN]);
    }
    assert output[..n] == output[..SALT_LEN] + output[SALT_LEN..n];
    MaskMasks(key, input);
  }

  /** `deobfuscate` into the slice `buf[lo..hi]`; 0 means there is nothing to write or no room. */
  method Deobfuscate(keyOf: KeyOf, input: seq<Byte>, buf: array<Byte>, lo: nat, hi: nat) returns (n: nat)
    requires lo <= hi <= buf.Length
    modifies buf
    ensures |input| <= SALT_LEN || hi - lo < |input| - SALT_LEN ==> n == 0
    ensures |input| > SALT_LEN && hi - lo >= |input| - SALT_LEN ==>
              n == |input| - SALT_LEN && buf[lo..lo + n] == Unseal(keyOf, input)
    ensures |input| > SALT_LEN && hi - lo >= |input| - SALT_LEN ==>
              Masks(keyOf(input[..8]), input[8..], buf[lo..lo + n])
    ensures forall i | 0 <= i < buf.Length && !(lo <= i < lo + n) :: buf[i] == old(buf[i])
  {
    n := if |input| > SALT_LEN then |input| - SALT_LEN else 0;
    if n == 0 || hi - lo < n {
      return 0;
    }
    var key := keyOf(input[..SALT_LEN]);
    for index := 0 to n
      invariant buf[lo..lo + index] == Unseal(keyOf, input)[..index]
      invariant forall i | 0 <= i < buf.Length && !(lo <= i < lo + index) :: buf[i] == old(buf[i])
    {
      buf[lo + index] := Xor(input[SALT_LEN + index], key[index % KEY_LEN]);
      assert buf[lo..lo + index + 1] == buf[lo..lo + index] + [buf[lo + index]];
    }
    MaskMasks(key, input[SALT_LEN..]);
  }

  // ================================================================ sending a batch

  function SealAll(keyOf: KeyOf, salts: seq<Salt>, parts: seq<seq<Byte>>): (s: seq<seq<Byte>>)
    requires |salts| == |parts|
    ensures |s| == |parts|
  {
    seq(|parts|, i requires 0 <= i < |parts| => Seal(keyOf, salts[i], parts[i]))
  }

  /** The segments a transmit stands for; without a segment size it is one datagram. */
  function SegmentSize(contents: seq<Byte>, segmentSize: Option<nat>): nat {
    if segmentSize.Some? then segmentSize.value else Max(|contents|, 1)
  }

  /** `try_send`: seal every segment with a salt of its own; a zero segment size makes it panic. */
  method TrySend(keyOf: KeyOf, salts: seq<Salt>, contents: seq<Byte>, segmentSize: Option<nat>)
    returns (encoded: seq<Byte>, encodedSize: Option<nat>)
    requires segmentSize != Some(0)
    requires |salts| == |Chunks(contents, SegmentSize(contents, segmentSize))|
    ensures encoded == Concat(SealAll(keyOf, salts, Chunks(contents, SegmentSize(contents, segmentSize))))
    ensures encodedSize == if segmentSize.Some? then Some(segmentSize.value + SALT_LEN) else None
  {
    var chunks := Chunks(contents, SegmentSize(contents, segmentSize));
    ghost var sealed := SealAll(keyOf, salts, chunks);
    encoded := [];
    for i := 0 to |chunks|
      invariant encoded == Concat(sealed[..i])
    {
      var out := new Byte[|chunks[i]| + SALT_LEN](_ => 0);
      var written := Obfuscate(keyOf, salts[i], chunks[i], out);
      ConcatTake(sealed, i);
      encoded := encoded + out[..written];
    }
    assert sealed[..|chunks|] == sealed;
    encodedSize := if segmentSize.Some? then Some(segmentSize.value + SALT_LEN) else None;
  }

  // ================================================================ receiving a batch

  datatype RecvMeta = RecvMeta(len: nat, stride: nat)

  /** How receiving ends: with a result, as an invalid datagram, or in a panic of the decoder. */
  datatype Received<T> = Done(value: T) | Invalid | Panicked

  function Stride(meta: RecvMeta): nat {
    if meta.stride == 0 then meta.len else meta.stride
  }

  /** The batch is refused: its stride leaves no payload. */
  predicate Refused(meta: RecvMeta) {
    meta.len > 0 && Stride(meta) <= SALT_LEN
  }

  /** The received segments. */
  function Segments(buffer: seq<Byte>, meta: RecvMeta): (s: seq<seq<Byte>>)
    requires meta.len <= |buffer| && meta.len > 0
  {
    Chunks(buffer[..meta.len], Stride(meta))
  }

  /** The length of the last segment. */
  function LastLength(len: nat, stride: nat): nat
    requires len > 0 && stride > 0
  {
    if len % stride == 0 then stride else len % stride
  }

  /** The last segment is shorter than a salt, which the code subtracts from its length. */
  predicate Underflows(meta: RecvMeta) {
    meta.len > 0 && Stride(meta) > SALT_LEN && LastLength(meta.len, Stride(meta)) < SALT_LEN
  }

  function UnsealAll(keyOf: KeyOf, segments: seq<seq<Byte>>): (s: seq<seq<Byte>>)
    requires forall x | x in segments :: |x| >= SALT_LEN
    ensures |s| == |segments|
    ensures forall i | 0 <= i < |s| :: s[i] == Unseal(keyOf, segments[i])
  {
    seq(|segments|, i requires 0 <= i < |segments| => Unseal(keyOf, segments[i]))
  }

  /** Segments of a batch: full ones, then one of `LastLength` bytes. */
  lemma {:induction false} SegmentLengths(buffer: seq<Byte>, meta: RecvMeta)
    requires 0 < meta.len <= |buffer|
    ensures
      var segments := Segments(buffer, meta);
      var n := |segments|;
      && n == DivCeil(meta.len, Stride(meta)) && n > 0
      && (forall i | 0 <= i < n - 1 :: |segments[i]| == Stride(meta))
      && |segments[n - 1]| == LastLength(meta.len, Stride(meta))
  {
    var segments := Segments(buffer, meta);
    var stride := Stride(meta);
    var n := |segments|;
    ChunkCount(buffer[..meta.len], stride);
    forall i | 0 <= i < n
      ensures |segments[i]| == if i < n - 1 then stride else LastLength(meta.len, stride)
    {
      ChunkAt(buffer[..meta.len], stride, i);
      MulMonotone(i + 1, n - 1, stride);
      assert (i + 1) * stride == i * stride + stride;
      if i == n - 1 {
        LastIsRemainder(meta.len, stride, n);
      }
    }
  }

  lemma {:induction false} LastIsRemainder(len: nat, stride: nat, n: nat)
    requires len > 0 && stride > 0 && n == DivCeil(len, stride)
    ensures len - (n - 1) * stride == LastLength(len, stride)
  {
    var q := len / stride;
    assert len == q * stride + len % stride;
    if len % stride == 0 {
      assert q * stride == (q - 1) * stride + stride;
    }
  }

  /**
   * The effect of decoding one received batch in its own buffer: the payload of every segment in turn,
   * packed at the front, with the bytes behind it as they were.
   */
  ghost predicate Decoded(keyOf: KeyOf, before: seq<Byte>, meta: RecvMeta, after: seq<Byte>, meta': RecvMeta) {
    && |after| == |before| && meta.len <= |before|
    && if meta.len == 0 then after == before && meta' == meta
       else
         var segments := Segments(before, meta);
         && (forall x | x in segments :: |x| >= SALT_LEN)
         && var payloads := UnsealAll(keyOf, segments);
            && meta'.len <= |after|
            && after[..meta'.len] == Concat(payloads)
            && after[meta'.len..] == before[meta'.len..]
            && meta'.stride == if |segments| > 1 then Stride(meta) - SALT_LEN else meta'.len
  }

  /** The body of `poll_recv` for one buffer: decode every segment over the bytes already consumed. */
  method DecodeInPlace(keyOf: KeyOf, buffer: array<Byte>, meta: RecvMeta) returns (r: Received<RecvMeta>)
    requires meta.len <= buffer.Length
    modifies buffer
    ensures r.Invalid? <==> Refused(meta)
    ensures r.Panicked? <==> Underflows(meta)
    ensures r.Invalid? ==> buffer[..] == old(buffer[..])
    ensures r.Done? ==> Decoded(keyOf, old(buffer[..]), meta, buffer[..], r.value)
  {
    var totalLen := meta.len;
    if totalLen == 0 {
      return Done(meta);
    }
    var originalStride := if meta.stride == 0 then totalLen else meta.stride;
    if originalStride <= SALT_LEN {
      return Invalid;
    }
    var datagramCount := DivCeil(totalLen, originalStride);
    ghost var segments := Segments(buffer[..], meta);
    SegmentLengths(buffer[..], meta);
    var decoded := DecodeSegments(keyOf, buffer, totalLen, originalStride, buffer[..], segments,
                                  OpenAll(keyOf, segments));
    if decoded.None? {
      return Panicked;
    }
    assert OpenAll(keyOf, segments) == UnsealAll(keyOf, segments);
    return Done(RecvMeta(decoded.value, if datagramCount > 1 then originalStride - SALT_LEN else decoded.value));
  }

  /** The payloads of segments that have one. */
  ghost function OpenAll(keyOf: KeyOf, segments: seq<seq<Byte>>): (s: seq<seq<Byte>>)
    ensures |s| == |segments|
    ensures forall i | 0 <= i < |s| && |segments[i]| >= SALT_LEN :: s[i] == Unseal(keyOf, segments[i])
  {
    seq(|segments|, i requires 0 <= i < |segments| =>
      if |segments[i]| >= SALT_LEN then Unseal(keyOf, segments[i]) else [])
  }

  /** The segment loop; it panics at a segment shorter than a salt. */
  method DecodeSegments(keyOf: KeyOf, buffer: array<Byte>, totalLen: nat, originalStride: nat,
                        ghost received: seq<Byte>, ghost segments: seq<seq<Byte>>, ghost payloads: seq<seq<Byte>>)
    returns (r: Option<nat>)
    requires 0 < totalLen <= |received| && originalStride > SALT_LEN && buffer[..] == received
    requires segments == Chunks(received[..totalLen], originalStride)
    requires |payloads| == |segments| == DivCeil(totalLen, originalStride) > 0
    requires forall i | 0 <= i < |segments| && |segments[i]| >= SALT_LEN :: payloads[i] == Unseal(keyOf, segments[i])
    requires forall i | 0 <= i < |segments| - 1 :: |segments[i]| == originalStride
    modifies buffer
    ensures r.None? <==> |segments[|segments| - 1]| < SALT_LEN
    ensures r.Some? ==>
              && r.value == |Concat(payloads)| <= totalLen
              && buffer[..] == Concat(payloads) + received[r.value..]
  {
    var datagramCount := DivCeil(totalLen, originalStride);
    var decodedStride := originalStride - SALT_LEN;
    var decodedTotal := 0;
    ghost var done: seq<Byte> := [];
    for segmentIndex := 0 to datagramCount
      invariant decodedTotal == |done| <= totalLen
      invariant Progress(received, payloads, decodedStride, segmentIndex, done, buffer[..])
      invariant segmentIndex == datagramCount ==> |segments[datagramCount - 1]| >= SALT_LEN
    {
      var written := DecodeNext(keyOf, buffer, totalLen, originalStride, decodedStride, segmentIndex,
                                received, segments, payloads, done);
      if written.None? {
        return None;
      }
      done := done + payloads[segmentIndex];
      decodedTotal := decodedTotal + written.value;
    }
    assert payloads[..datagramCount] == payloads;
    return Some(decodedTotal);
  }

  /** The first `i` payloads have been written over the front of what was received. */
  ghost predicate Progress(received: seq<Byte>, payloads: seq<seq<Byte>>, decoded: nat, i: nat, done: seq<Byte>,
                           now: seq<Byte>)
  {
    && i <= |payloads| && |done| <= |received|
    && done == Concat(payloads[..i]) && (i < |payloads| ==> |done| == Position(decoded, i))
    && now == done + received[|done|..]
  }

  lemma {:induction false} ProgressNext(received: seq<Byte>, payloads: seq<seq<Byte>>, decoded: nat, i: nat,
                                        done: seq<Byte>)
    requires i < |payloads| && |done| == Position(decoded, i) && done == Concat(payloads[..i])
    requires |done + payloads[i]| <= |received| && (i + 1 < |payloads| ==> |payloads[i]| == decoded)
    ensures
      var next := done + payloads[i];
      Progress(received, payloads, decoded, i + 1, next, next + received[|next|..])
  {
    ConcatTake(payloads, i);
  }

  /** One turn of the segment loop. */
  method DecodeNext(keyOf: KeyOf, buffer: array<Byte>, totalLen: nat, originalStride: nat, decodedStride: nat,
                    segmentIndex: nat, ghost received: seq<Byte>, ghost segments: seq<seq<Byte>>,
                    ghost payloads: seq<seq<Byte>>, ghost done: seq<Byte>)
    returns (written: Option<nat>)
    requires 0 < totalLen <= |received| && decodedStride + SALT_LEN == originalStride && decodedStride > 0
    requires segments == Chunks(received[..totalLen], originalStride)
    requires segmentIndex < |segments| == |payloads| == DivCeil(totalLen, originalStride)
    requires |segments[segmentIndex]| >= SALT_LEN ==> payloads[segmentIndex] == Unseal(keyOf, segments[segmentIndex])
    requires Progress(received, payloads, decodedStride, segmentIndex, done, buffer[..])
    modifies buffer
    ensures written.None? <==> |segments[segmentIndex]| < SALT_LEN
    ensures written.Some? ==>
              && written.value == |payloads[segmentIndex]| && |done| + written.value <= totalLen
              && Progress(received, payloads, decodedStride, segmentIndex + 1, done + payloads[segmentIndex],
                          buffer[..])
  {
    ghost var segment, payload := segments[segmentIndex], payloads[segmentIndex];
    var inputOffset := segmentIndex * originalStride;
    var outputOffset := segmentIndex * decodedStride;
    SegmentAt(received, totalLen, originalStride, decodedStride, segmentIndex, segment, inputOffset, outputOffset);
    var inputLen := Min(totalLen - inputOffset, originalStride);
    if inputLen < SALT_LEN {
      return None;
    }
    Turn(received, done, inputOffset, inputLen, payload);
    ProgressNext(received, payloads, decodedStride, segmentIndex, done);
    ghost var now := done + received[|done|..];
    var n := DecodeAt(keyOf, buffer, inputOffset, inputLen, outputOffset, now, segment);
    return Some(n);
  }

  /** A buffer with the bytes from `at` on overwritten. */
  ghost function Written(buffer: seq<Byte>, at: nat, bytes: seq<Byte>): seq<Byte>
    requires at + |bytes| <= |buffer|
  {
    buffer[..at] + bytes + buffer[at + |bytes|..]
  }

  /** When the payloads before a segment have been written, the segment is intact and its payload goes next. */
  lemma {:induction false} Turn(received: seq<Byte>, done: seq<Byte>, at: nat, len: nat, payload: seq<Byte>)
    requires |done| <= at && at + len <= |received| && |payload| <= len
    ensures
      var now := done + received[|done|..];
      && now[at..at + len] == received[at..at + len]
      && Written(now, |done|, payload) == done + payload + received[|done + payload|..]
  {
  }

  /** Where payload `i` goes. */
  ghost function Position(decoded: nat, i: nat): nat {
    if i == 0 then 0 else Position(decoded, i - 1) + decoded
  }

  lemma {:induction false} PositionIsProduct(decoded: nat, i: nat)
    ensures Position(decoded, i) == i * decoded
  {
    if i > 0 {
      PositionIsProduct(decoded, i - 1);
      assert i * decoded == (i - 1) * decoded + decoded;
    }
  }

  /**
   * No clobbering: segment `i` starts no earlier than the place its payload goes to, which is where the
   * payload before it ends, so that it is still in the buffer when its turn comes.
   */
  lemma {:induction false} SegmentAt(received: seq<Byte>, total: nat, stride: nat, decoded: nat, i: nat,
                                     segment: seq<Byte>, inputOffset: int, outputOffset: int)
    requires 0 < total <= |received| && decoded + SALT_LEN == stride && decoded > 0
    requires i < |Chunks(received[..total], stride)|
    requires inputOffset == i * stride && outputOffset == i * decoded
    requires segment == Chunks(received[..total], stride)[i]
    ensures 0 <= Position(decoded, i) == outputOffset <= inputOffset < total
    ensures |segment| == Min(total - inputOffset, stride)
    ensures segment == received[inputOffset..inputOffset + |segment|]
    ensures i + 1 < DivCeil(total, stride) ==> |segment| == stride
  {
    ChunkCount(received[..total], stride);
    SegmentBounds(total, stride, decoded, i);
    ChunkAt(received[..total], stride, i);
    PositionIsProduct(decoded, i);
  }

  /** Copy the segment out of the buffer and write its payload back, at or before the place it came from. */
  method DecodeAt(keyOf: KeyOf, buffer: array<Byte>, inputOffset: nat, inputLen: nat, outputOffset: nat,
                  ghost now: seq<Byte>, ghost segment: seq<Byte>)
    returns (written: nat)
    requires inputLen >= SALT_LEN && outputOffset <= inputOffset && inputOffset + inputLen <= buffer.Length
    requires buffer[..] == now && now[inputOffset..inputOffset + inputLen] == segment
    modifies buffer
    ensures written == inputLen - SALT_LEN
    ensures buffer[..] == Written(now, outputOffset, Unseal(keyOf, segment))
  {
    var input := buffer[inputOffset..inputOffset + inputLen];
    assert input == now[inputOffset..inputOffset + inputLen];
    var outputLen := inputLen - SALT_LEN;
    written := Deobfuscate(keyOf, input, buffer, outputOffset, outputOffset + outputLen);
  }

  /** The arithmetic that keeps writes behind reads. */
  lemma {:induction false} SegmentBounds(len: nat, stride: nat, decoded: nat, i: nat)
    requires decoded + SALT_LEN == stride && decoded > 0 && len > 0 && i < DivCeil(len, stride)
    ensures 0 <= i * decoded <= i * stride < len
    ensures (i + 1) * decoded == i * decoded + decoded
    ensures i + 1 < DivCeil(len, stride) ==> i * stride + stride < len
  {
    var n := DivCeil(len, stride);
    MulMonotone(i, n - 1, stride);
    MulMonotone(i + 1, n - 1, stride);
    assert (i + 1) * stride == i * stride + stride;
    MulMonotone(decoded, stride, i);
  }

  /** What becomes of one buffer. */
  datatype Fate = Decodes | Refuses | Panics

  function FateOf(meta: RecvMeta): Fate {
    if Refused(meta) then Refuses else if Underflows(meta) then Panics else Decodes
  }

  /** The first buffer that is not decoded is number `i`, and this is its fate. */
  ghost predicate StopsAt(metas: seq<RecvMeta>, i: nat, fate: Fate) {
    && i < |metas| && FateOf(metas[i]) == fate != Decodes
    && forall j | 0 <= j < i :: FateOf(metas[j]) == Decodes
  }

  lemma {:induction false} StopsOnce(metas: seq<RecvMeta>, i: nat, fate: Fate)
    requires StopsAt(metas, i, fate)
    ensures forall k: nat, f :: StopsAt(metas, k, f) ==> k == i && f == fate
  {
  }

  /**
   * `poll_recv` after the inner socket filled `count` buffers: the first one that cannot be decoded
   * decides whether it fails or panics.
   */
  method PollRecv(keyOf: KeyOf, bufs: seq<array<Byte>>, meta: array<RecvMeta>, count: nat) returns (r: Received<nat>)
    requires count <= |bufs| && count <= meta.Length
    requires forall i, j | 0 <= i < j < count :: bufs[i] != bufs[j]
    requires forall i | 0 <= i < count :: meta[i].len <= bufs[i].Length
    modifies meta, set i | 0 <= i < count :: bufs[i]
    ensures r.Invalid? <==> exists i: nat :: StopsAt(old(meta[..count]), i, Refuses)
    ensures r.Panicked? <==> exists i: nat :: StopsAt(old(meta[..count]), i, Panics)
    ensures r.Done? ==>
              && r.value == count
              && forall i | 0 <= i < count ::
                   Decoded(keyOf, old(bufs[i][..]), old(meta[i]), bufs[i][..], meta[i])
  {
    ghost var metas := meta[..count];
    var stop := DecodeEntries(keyOf, bufs, meta, count);
    match stop {
      case None =>
        return Done(count);
      case Some((index, fate)) =>
        StopsOnce(metas, index, fate);
        assert StopsAt(metas, index, fate);
        return if fate == Refuses then Invalid else Panicked;
    }
  }

  /** The loop over the buffers, up to the first that is not decoded. */
  method DecodeEntries(keyOf: KeyOf, bufs: seq<array<Byte>>, meta: array<RecvMeta>, count: nat)
    returns (stop: Option<(nat, Fate)>)
    requires count <= |bufs| && count <= meta.Length
    requires forall i, j | 0 <= i < j < count :: bufs[i] != bufs[j]
    requires forall i | 0 <= i < count :: meta[i].len <= bufs[i].Length
    modifies meta, set i | 0 <= i < count :: bufs[i]
    ensures stop.Some? ==> StopsAt(old(meta[..count]), stop.value.0, stop.value.1)
    ensures stop.None? ==>
              forall i | 0 <= i < count ::
                && FateOf(old(meta[i])) == Decodes
                && Decoded(keyOf, old(bufs[i][..]), old(meta[i]), bufs[i][..], meta[i])
  {
    for index := 0 to count
      invariant forall i | 0 <= i < index :: FateOf(old(meta[i])) == Decodes
      invariant forall i | 0 <= i < index ::
                  Decoded(keyOf, old(bufs[i][..]), old(meta[i]), bufs[i][..], meta[i])
      invariant forall i | index <= i < count :: bufs[i][..] == old(bufs[i][..]) && meta[i] == old(meta[i])
    {
      var fate := DecodeEntry(keyOf, bufs, meta, count, index);
      if fate != Decodes {
        return Some((index, fate));
      }
    }
    return None;
  }

  /** The turn of one buffer, which leaves the others alone. */
  method DecodeEntry(keyOf: KeyOf, bufs: seq<array<Byte>>, meta: array<RecvMeta>, count: nat, index: nat)
    returns (fate: Fate)
    requires index < count <= |bufs| && count <= meta.Length
    requires forall i, j | 0 <= i < j < count :: bufs[i] != bufs[j]
    requires meta[index].len <= bufs[index].Length
    modifies meta, bufs[index]
    ensures fate == FateOf(old(meta[index]))
    ensures fate == Decodes ==>
              Decoded(keyOf, old(bufs[index][..]), old(meta[index]), bufs[index][..], meta[index])
    ensures forall i | 0 <= i < count && i != index :: bufs[i][..] == old(bufs[i][..]) && meta[i] == old(meta[i])
  {
    var decoded := DecodeInPlace(keyOf, bufs[index], meta[index]);
    match decoded {
      case Done(next) =>
        meta[index] := next;
        return Decodes;
      case Invalid => return Refuses;
      case Panicked => return Panics;
    }
  }

  // ================================================================ what the caller sees

  /** How the caller takes a received batch apart again. */
  function Resegment(data: seq<Byte>, stride: nat): seq<seq<Byte>>
    requires data != [] ==> stride > 0
  {
    if data == [] then [] else Chunks(data, stride)
  }

  lemma {:induction false} PayloadLengths(keyOf: KeyOf, before: seq<Byte>, meta: RecvMeta)
    requires 0 < meta.len <= |before| && SALT_LEN < Stride(meta)
    requires forall x | x in Segments(before, meta) :: |x| >= SALT_LEN
    ensures
      var payloads := UnsealAll(keyOf, Segments(before, meta));
      var n := |payloads|;
      && n > 0
      && (forall i | 0 <= i < n - 1 :: |payloads[i]| == Stride(meta) - SALT_LEN)
      && |payloads[n - 1]| == LastLength(meta.len, Stride(meta)) - SALT_LEN <= Stride(meta) - SALT_LEN
  {
    SegmentLengths(before, meta);
  }

  lemma {:induction false} ConcatEmpty<T>(parts: seq<seq<T>>, i: nat)
    requires i < |parts| && parts[i] != []
    ensures Concat(parts) != []
  {
    if i > 0 {
      ConcatEmpty(parts[1..], i - 1);
    }
  }

  /**
   * The decoded buffer, length and stride stand for exactly the separately decoded segments if and only
   * if the last segment is longer than a salt; a bare salt at the end is dropped without a trace.
   */
  lemma {:induction false} ResegmentIffPayload(keyOf: KeyOf, before: seq<Byte>, meta: RecvMeta,
                                               after: seq<Byte>, meta': RecvMeta)
    requires Decoded(keyOf, before, meta, after, meta') && meta.len > 0 && Stride(meta) > SALT_LEN
    ensures after[..meta'.len] != [] ==> meta'.stride > 0
    ensures Resegment(after[..meta'.len], meta'.stride) == UnsealAll(keyOf, Segments(before, meta))
       <==> LastLength(meta.len, Stride(meta)) > SALT_LEN
  {
    var payloads := UnsealAll(keyOf, Segments(before, meta));
    var n := |payloads|;
    var data := after[..meta'.len];
    PayloadLengths(keyOf, before, meta);
    if n == 1 {
      assert payloads == [payloads[0]];
      assert Concat(payloads) == payloads[0] + Concat(payloads[1..]);
    }
    if LastLength(meta.len, Stride(meta)) > SALT_LEN {
      ConcatEmpty(payloads, n - 1);
      ChunksUnique(payloads, meta'.stride);
    } else if data != [] {
      NoEmptyChunk(data, meta'.stride, payloads);
    }
  }

  lemma {:induction false} NoEmptyChunk(data: seq<Byte>, size: nat, parts: seq<seq<Byte>>)
    requires size > 0 && parts != [] && parts[|parts| - 1] == []
    ensures Chunks(data, size) != parts
  {
    if |Chunks(data, size)| == |parts| {
      ChunkAt(data, size, |parts| - 1);
    }
  }

  /** How the receiver may describe a batch that was sent: by its stride, or as one datagram. */
  predicate Describes(meta: RecvMeta, encoded: seq<Byte>, segments: nat, size: nat) {
    && meta.len == |encoded|
    && (meta.stride == size + SALT_LEN || (segments == 1 && (meta.stride == 0 || meta.stride == |encoded|)))
  }

  /** Concatenated segments, all but the last of full size, are cut apart where they were joined. */
  lemma {:induction false} ReceivedSegments(sealed: seq<seq<Byte>>, size: nat, before: seq<Byte>, meta: RecvMeta)
    requires sealed != [] && size > 0
    requires forall i | 0 <= i < |sealed| - 1 :: |sealed[i]| == size + SALT_LEN
    requires SALT_LEN < |sealed[|sealed| - 1]| <= size + SALT_LEN
    requires
      var encoded := Concat(sealed);
      Describes(meta, encoded, |sealed|, size) && |encoded| <= |before| && before[..|encoded|] == encoded
    ensures meta.len > 0 && Stride(meta) > SALT_LEN && Segments(before, meta) == sealed
  {
    var n := |sealed|;
    ConcatEmpty(sealed, n - 1);
    if n == 1 {
      assert sealed == [sealed[0]];
      assert Concat(sealed) == sealed[0] + Concat(sealed[1..]);
    }
    ChunksUnique(sealed, Stride(meta));
  }

  /** A sent batch is received as the very segments that were sealed, and is always decodable. */
  lemma {:induction false} SentSegments(keyOf: KeyOf, salts: seq<Salt>, contents: seq<Byte>, size: nat,
                                        before: seq<Byte>, meta: RecvMeta)
    requires contents != [] && size > 0 && |salts| == |Chunks(contents, size)|
    requires
      var encoded := Concat(SealAll(keyOf, salts, Chunks(contents, size)));
      Describes(meta, encoded, |salts|, size) && |encoded| <= |before| && before[..|encoded|] == encoded
    ensures meta.len > 0 && FateOf(meta) == Decodes
    ensures Segments(before, meta) == SealAll(keyOf, salts, Chunks(contents, size))
    ensures LastLength(meta.len, Stride(meta)) > SALT_LEN
  {
    var sealed := SealAll(keyOf, salts, Chunks(contents, size));
    ContentChunks(contents, size);
    ReceivedSegments(sealed, size, before, meta);
    SegmentLengths(before, meta);
  }

  lemma {:induction false} ContentChunks(contents: seq<Byte>, size: nat)
    requires contents != [] && size > 0
    ensures
      var chunks := Chunks(contents, size);
      var n := |chunks|;
      && n > 0 && (forall i | 0 <= i < n - 1 :: |chunks[i]| == size) && 1 <= |chunks[n - 1]| <= size
  {
    SegmentLengths(contents, RecvMeta(|contents|, size));
    assert contents[..|contents|] == contents;
  }

  /**
   * The socket is transparent: decoding in place what `try_send` produced gives back the contents, with
   * a stride that takes them apart at the original segment boundaries.
   */
  lemma {:induction false} BatchRoundTrip(keyOf: KeyOf, salts: seq<Salt>, contents: seq<Byte>, size: nat,
                       before: seq<Byte>, meta: RecvMeta, after: seq<Byte>, meta': RecvMeta)
    requires contents != [] && size > 0 && |salts| == |Chunks(contents, size)|
    requires
      var encoded := Concat(SealAll(keyOf, salts, Chunks(contents, size)));
      Describes(meta, encoded, |salts|, size) && |encoded| <= |before| && before[..|encoded|] == encoded
    requires Decoded(keyOf, before, meta, after, meta')
    ensures meta'.len == |contents| && after[..meta'.len] == contents
    ensures meta'.stride > 0 && Resegment(contents, meta'.stride) == Chunks(contents, size)
  {
    var chunks := Chunks(contents, size);
    SentSegments(keyOf, salts, contents, size, before, meta);
    var segments := Segments(before, meta);
    forall i | 0 <= i < |chunks|
      ensures UnsealAll(keyOf, segments)[i] == chunks[i]
    {
      UnsealSeal(keyOf, salts[i], chunks[i]);
    }
    assert UnsealAll(keyOf, segments) == chunks;
    ConcatChunks(contents, size);
    assert after[..meta'.len] == contents;
    ResegmentIffPayload(keyOf, before, meta, after, meta');
  }
}
