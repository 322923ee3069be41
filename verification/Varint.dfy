/** QUIC variable-length integers (section 16 of RFC 9000): core/src/varint.rs. */
module Varint {
  import opened Base

  const MAX_VARINT: nat := 0x3fff_ffff_ffff_ffff

  datatype VarintError = VarintOverflow | UnexpectedEof

  /** `len`: the number of bytes `write` uses for `value`. */
  function Len(value: nat): (n: nat)
    requires value <= MAX_VARINT
    ensures n == 1 || n == 2 || n == 4 || n == 8
  {
    if value <= 63 then 1
    else if value <= 16_383 then 2
    else if value <= 1_073_741_823 then 4
    else 8
  }

  /** The two length bits that announce a `width`-byte integer: log2 of the width. */
  function Tag(width: nat): nat
    requires width == 1 || width == 2 || width == 4 || width == 8
  {
    if width == 1 then 0 else if width == 2 then 1 else if width == 4 then 2 else 3
  }

  /** Section 16 of RFC 9000: the length bits followed by the value, in network byte order. */
  function Encode(value: nat): (s: seq<Byte>)
    requires value <= MAX_VARINT
    ensures |s| == Len(value)
  {
    var width := Len(value);
    BigEndian(Tag(width) * 64 * Pow256(width - 1) + value, width)
  }

  /** The width announced by a first byte. */
  function Needed(first: Byte): (n: nat)
    ensures n == 1 || n == 2 || n == 4 || n == 8
  {
    var tag := first / 64;
    if tag == 0 then 1 else if tag == 1 then 2 else if tag == 2 then 4 else 8
  }

  /** The value and width of the integer at the front of `s`. */
  function Decode(s: seq<Byte>): (r: Result<(nat, nat), VarintError>)
    ensures r.Ok? ==> 1 <= r.value.1 <= 8 && r.value.1 <= |s| && r.value.0 <= MAX_VARINT
  {
    if s == [] || |s| < Needed(s[0]) then Err(UnexpectedEof)
    else
      var needed := Needed(s[0]);
      var digits := [s[0] % 64] + s[1..needed];
      FromBigEndianHead(s[0] % 64, s[1..needed]);
      FromBigEndianBound(s[1..needed]);
      PowValues();
      Ok((FromBigEndian(digits), needed))
  }

  lemma {:induction false} PowValues()
    ensures Pow256(0) == 1 && Pow256(1) == 0x100 && Pow256(2) == 0x1_0000
    ensures Pow256(3) == 0x100_0000 && Pow256(4) == 0x1_0000_0000
    ensures Pow256(7) == 0x100_0000_0000_0000 && Pow256(8) == 0x1_0000_0000_0000_0000
  {
    assert Pow256(5) == 0x100_0000_0000;
    assert Pow256(6) == 0x1_0000_0000_0000;
  }

  /** The first byte of a tagged word carries the tag in its two top bits. */
  lemma {:induction false} FirstByte(tag: nat, width: nat, value: nat)
    requires tag < 4 && width >= 1 && value < 64 * Pow256(width - 1)
    ensures tag * 64 * Pow256(width - 1) + value < Pow256(width)
    ensures
      var s := BigEndian(tag * 64 * Pow256(width - 1) + value, width);
      && s[0] / 64 == tag
      && FromBigEndian([s[0] % 64] + s[1..]) == value
  {
    var p := Pow256(width - 1);
    TaggedFits(tag, p, value);
    var word := tag * 64 * p + value;
    var s := BigEndian(word, width);
    FromBigEndianInverts(word, width);
    assert s == [s[0]] + s[1..];
    FromBigEndianHead(s[0], s[1..]);
    FromBigEndianBound(s[1..]);
    FromBigEndianHead(s[0] % 64, s[1..]);
    SplitTop(tag, s[0], value, FromBigEndian(s[1..]), p);
  }

  lemma {:induction false} TaggedFits(tag: nat, p: nat, value: nat)
    requires tag < 4 && value < 64 * p
    ensures 0 <= tag * 64 * p && tag * 64 * p + value < 256 * p
  {
    assert tag * 64 * p <= 192 * p;
  }

  /** If `first * p + low` is `tag * 64 * p + value`, the top bits of `first` are `tag`. */
  lemma {:induction false} SplitTop(tag: nat, first: nat, value: nat, low: nat, p: nat)
    requires p >= 1 && low < p && value < 64 * p
    requires first * p + low == tag * 64 * p + value
    ensures first / 64 == tag
    ensures (first % 64) * p + low == value
  {
    var d := first - tag * 64;
    assert d * p == first * p - tag * 64 * p == value - low;
    assert d >= 0 by {
      MulMonotone(d, -1, p);
    }
    assert d < 64 by {
      MulMonotone(64, d, p);
    }
    assert first == tag * 64 + d;
  }

  /** Reading back what was written returns the value, and nothing after it is looked at. */
  lemma {:induction false} DecodeEncode(value: nat, rest: seq<Byte>)
    requires value <= MAX_VARINT
    ensures Decode(Encode(value) + rest) == Ok((value, Len(value)))
  {
    var width := Len(value);
    var s := Encode(value);
    PowValues();
    FirstByte(Tag(width), width, value);
    assert (s + rest)[1..width] == s[1..];
  }

  /** `write` always picks the shortest of the encodings that decode to the same value. */
  lemma {:induction false} EncodeIsShortest(s: seq<Byte>)
    requires Decode(s).Ok?
    ensures Len(Decode(s).value.0) <= Decode(s).value.1
  {
    var needed := Needed(s[0]);
    FromBigEndianHead(s[0] % 64, s[1..needed]);
    FromBigEndianBound(s[1..needed]);
    PowValues();
  }

  // ---------------------------------------------------------------- encodings of any width

  /** A value that an encoding of this width has room for. */
  predicate Fits(value: nat, width: nat) {
    || (width == 1 && value <= 63) || (width == 2 && value <= 16_383)
    || (width == 4 && value <= 1_073_741_823) || (width == 8 && value <= 4_611_686_018_427_387_903)
  }

  /** The encoding of `value` in `width` bytes: two bits for the width, and the value in the others. */
  function Wide(value: nat, width: nat): (s: seq<Byte>)
    requires Fits(value, width)
    ensures |s| == width
  {
    BigEndian(Tag(width) * 64 * Pow256(width - 1) + value, width)
  }

  /** An encoding need not be the shortest to be read. */
  lemma {:induction false} DecodeWide(value: nat, width: nat, rest: seq<Byte>)
    requires Fits(value, width)
    ensures Decode(Wide(value, width) + rest) == Ok((value, width))
  {
    var s := Wide(value, width);
    PowValues();
    FirstByte(Tag(width), width, value);
    assert (s + rest)[1..width] == s[1..];
  }

  lemma {:induction false} DecodedFits(s: seq<Byte>)
    requires Decode(s).Ok?
    ensures Decode(s).value.1 <= |s| && Fits(Decode(s).value.0, Decode(s).value.1)
  {
    var tail := s[1..Needed(s[0])];
    PowValues();
    FromBigEndianBound(tail);
    FromBigEndianHead(s[0] % 64, tail);
  }

  /** And nothing else is read. */
  lemma {:induction false} DecodedIsWide(s: seq<Byte>)
    requires Decode(s).Ok?
    ensures
      var (value, width) := Decode(s).value;
      width <= |s| && Fits(value, width) && s[..width] == Wide(value, width)
  {
    DecodedFits(s);
    var width := Needed(s[0]);
    TagOfNeeded(s[0]);
    TaggedWord(s[0], s[1..width]);
    assert s[..width] == [s[0]] + s[1..width];
    BigEndianInverts(s[..width]);
  }

  lemma {:induction false} TagOfNeeded(first: Byte)
    ensures Tag(Needed(first)) == first / 64
  {
  }

  lemma {:induction false} TaggedWord(first: Byte, tail: seq<Byte>)
    ensures FromBigEndian([first] + tail)
         == first / 64 * 64 * Pow256(|tail|) + FromBigEndian([first % 64] + tail)
  {
    FromBigEndianHead(first % 64, tail);
    FromBigEndianHead(first, tail);
    TopBits(first, Pow256(|tail|));
  }

  lemma {:induction false} TopBits(first: Byte, p: nat)
    ensures first * p == (first / 64) * 64 * p + (first % 64) * p
  {
    assert first == (first / 64) * 64 + first % 64;
  }

  /** A cut encoding is refused; what follows it does not matter. */
  lemma {:induction false} DecodePrefix(s: seq<Byte>, k: nat)
    requires Decode(s).Ok? && k <= |s|
    ensures Decode(s[..k]) == if k < Decode(s).value.1 then Err(UnexpectedEof) else Decode(s)
  {
    var width := Needed(s[0]);
    if k >= width {
      assert s[..k][1..width] == s[1..width];
    }
  }

  // ---------------------------------------------------------------- the imperative code

  lemma {:induction false} BigEndian8(n: nat)
    ensures BigEndian(n, 8) == BigEndian(n / 0x1_0000_0000, 4) + BigEndian(n, 4)
  {
    BigEndian4(n);
    assert n / 0x100 / 0x100 == n / 0x1_0000;
    assert n / 0x1_0000 / 0x100 == n / 0x100_0000;
    assert n / 0x100_0000 / 0x100 == n / 0x1_0000_0000;
    assert BigEndian(n / 0x100_0000, 5) == BigEndian(n / 0x1_0000_0000, 4) + [n / 0x100_0000 % 256];
    assert BigEndian(n / 0x1_0000, 6) == BigEndian(n / 0x100_0000, 5) + [n / 0x1_0000 % 256];
    assert BigEndian(n / 0x100, 7) == BigEndian(n / 0x1_0000, 6) + [n / 0x100 % 256];
  }

  /** The bytes the four arms of `write` store, by shifts, truncations and an or-ed length tag. */
  function Stored(value: nat): (s: seq<Byte>)
    requires value <= MAX_VARINT
    ensures |s| == Len(value)
  {
    var needed := Len(value);
    if needed == 1 then [value]
    else if needed == 2 then [Or(value / 0x100, 0x40), value % 256]
    else if needed == 4 then
      [Or(value / 0x100_0000, 0x80), value / 0x1_0000 % 256, value / 0x100 % 256, value % 256]
    else
      var high := value / 0x1_0000_0000;
      [Or(high / 0x100_0000, 0xc0), high / 0x1_0000 % 256, high / 0x100 % 256, high % 256,
       value / 0x100_0000 % 256, value / 0x1_0000 % 256, value / 0x100 % 256, value % 256]
  }

  /** The tag takes the two bits the value leaves free. */
  lemma {:induction false} OrTag(low: nat, tag: nat)
    requires low < 64 && tag < 4
    ensures Or(low, tag * 64) == low + tag * 64
  {
    Pow2Of8();
    OrIsSum(low, tag, 6, 8);
  }

  lemma {:induction false} StoredIsEncode(value: nat)
    requires value <= MAX_VARINT
    ensures Stored(value) == Encode(value)
  {
    Tagged(value);
    TopByte(value);
    if value < 0x40 {
      OneByte(value);
    } else if value < 0x4000 {
      TwoBytes(value);
    } else if value < 0x4000_0000 {
      TaggedBytes(0x80, value);
    } else {
      EightBytes(value);
    }
  }

  lemma {:induction false} TopByte(value: nat)
    requires value <= MAX_VARINT
    ensures value < 0x4000 ==> Or(value / 0x100, 0x40) == value / 0x100 + 0x40
    ensures value < 0x4000_0000 ==> Or(value / 0x100_0000, 0x80) == value / 0x100_0000 + 0x80
    ensures
      var top := value / 0x1_0000_0000 / 0x100_0000;
      top < 64 && Or(top, 0xc0) == top + 0xc0
  {
    if value < 0x4000 {
      OrTag(value / 0x100, 1);
    }
    if value < 0x4000_0000 {
      OrTag(value / 0x100_0000, 2);
    }
    OrTag(value / 0x1_0000_0000 / 0x100_0000, 3);
  }

  /** The four tagged words. */
  lemma {:induction false} Tagged(value: nat)
    requires value <= MAX_VARINT
    ensures Encode(value) ==
            if value < 0x40 then BigEndian(value, 1)
            else if value < 0x4000 then BigEndian(0x4000 + value, 2)
            else if value < 0x4000_0000 then BigEndian(0x8000_0000 + value, 4)
            else BigEndian(0xc000_0000_0000_0000 + value, 8)
  {
    PowValues();
  }

  lemma {:induction false} TwoBytes(value: nat)
    requires value < 0x4000
    ensures BigEndian(0x4000 + value, 2) == [value / 0x100 + 0x40, value % 256]
  {
    BigEndian2(0x4000 + value);
  }

  lemma {:induction false} OneByte(value: nat)
    requires value < 256
    ensures BigEndian(value, 1) == [value]
  {
    assert BigEndian(value, 1) == BigEndian(value / 256, 0) + [value % 256];
  }

  lemma {:induction false} EightBytes(value: nat)
    requires value <= MAX_VARINT
    ensures
      var high := value / 0x1_0000_0000;
      BigEndian(0xc000_0000_0000_0000 + value, 8) ==
      [high / 0x100_0000 + 0xc0, high / 0x1_0000 % 256, high / 0x100 % 256, high % 256,
       value / 0x100_0000 % 256, value / 0x1_0000 % 256, value / 0x100 % 256, value % 256]
  {
    var word := 0xc000_0000_0000_0000 + value;
    var high := value / 0x1_0000_0000;
    BigEndian8(word);
    assert word / 0x1_0000_0000 == 0xc000_0000 + high;
    TaggedBytes(0xc0, high);
    BigEndian4(word);
    LowBytes(0xc000_0000, value);
  }

  /** A 32-bit word whose top byte is or-ed with `tag`. */
  lemma {:induction false} TaggedBytes(tag: nat, value: nat)
    requires value < 0x4000_0000 && tag <= 0xc0
    ensures BigEndian(tag * 0x100_0000 + value, 4)
         == [value / 0x100_0000 + tag, value / 0x1_0000 % 256, value / 0x100 % 256, value % 256]
  {
    BigEndian4(tag * 0x100_0000 + value);
    TagShifts(tag, value, tag * 0x100_0000 + value);
  }

  lemma {:induction false} TagShifts(tag: nat, value: nat, word: nat)
    requires value < 0x4000_0000 && tag <= 0xc0 && word == tag * 0x100_0000 + value
    ensures word / 0x100_0000 % 256 == value / 0x100_0000 + tag
    ensures word / 0x1_0000 % 256 == value / 0x1_0000 % 256
    ensures word / 0x100 % 256 == value / 0x100 % 256 && word % 256 == value % 256
  {
    assert word / 0x100_0000 == tag + value / 0x100_0000;
    assert word / 0x1_0000 == tag * 0x100 + value / 0x1_0000;
    assert word / 0x100 == tag * 0x1_0000 + value / 0x100;
    ModShift(tag, value / 0x1_0000);
    ModShift(tag * 0x100, value / 0x100);
    ModShift(tag * 0x1_0000, value);
  }

  /** Adding a multiple of 2^32 leaves the four low bytes alone. */
  lemma {:induction false} LowBytes(high: nat, value: nat)
    ensures
      var word := high * 0x1_0000_0000 + value;
      && word / 0x100_0000 % 256 == value / 0x100_0000 % 256
      && word / 0x1_0000 % 256 == value / 0x1_0000 % 256
      && word / 0x100 % 256 == value / 0x100 % 256
      && word % 256 == value % 256
  {
    var word := high * 0x1_0000_0000 + value;
    assert word / 0x100_0000 == high * 0x100 + value / 0x100_0000;
    assert word / 0x1_0000 == high * 0x1_0000 + value / 0x1_0000;
    assert word / 0x100 == high * 0x100_0000 + value / 0x100;
    ModShift(high, value / 0x100_0000);
    ModShift(high * 0x100, value / 0x1_0000);
    ModShift(high * 0x1_0000, value / 0x100);
    ModShift(high * 0x100_0000, value);
  }

  lemma {:induction false} ModShift(k: nat, n: nat)
    ensures (k * 256 + n) % 256 == n % 256
  {
  }

  /** `write`: encode `value` at the front of the slice `buf[at..]`. */
  method Write(buf: array<Byte>, at: nat, value: nat) returns (r: Result<nat, VarintError>)
    requires at <= buf.Length
    modifies buf
    ensures value > MAX_VARINT ==> r == Err(VarintOverflow)
    ensures value <= MAX_VARINT && buf.Length - at < Len(value) ==> r == Err(UnexpectedEof)
    ensures value <= MAX_VARINT && buf.Length - at >= Len(value) ==>
              r == Ok(Len(value)) && buf[at..at + Len(value)] == Encode(value)
    ensures forall i | 0 <= i < buf.Length && !(r.Ok? && at <= i < at + r.value) :: buf[i] == old(buf[i])
  {
    if value > MAX_VARINT {
      return Err(VarintOverflow);
    }
    var needed := Len(value);
    if buf.Length - at < needed {
      return Err(UnexpectedEof);
    }
    StoredIsEncode(value);
    var bytes := Stored(value);
    forall i | 0 <= i < needed {
      buf[at + i] := bytes[i];
    }
    assert buf[at..at + needed] == bytes;
    return Ok(needed);
  }

  /** `read_slice` (and the loop `read` shares with it): accumulate the announced bytes. */
  method ReadSlice(buf: seq<Byte>) returns (r: Result<(nat, nat), VarintError>)
    ensures r == Decode(buf)
  {
    if buf == [] {
      return Err(UnexpectedEof);
    }
    var needed := Needed(buf[0]);
    if |buf| < needed {
      return Err(UnexpectedEof);
    }
    var value: nat := buf[0] % 64;
    ghost var digits := [buf[0] % 64] + buf[1..needed];
    assert digits[..1] == [] + [buf[0] % 64];
    FromBigEndianTake(digits, 0);
    for i := 1 to needed
      invariant value == FromBigEndian(digits[..i])
    {
      FromBigEndianTake(digits, i);
      value := value * 256 + buf[i];
    }
    assert digits[..needed] == digits;
    return Ok((value, needed));
  }
}
