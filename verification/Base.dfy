/** Bytes, optional values and big-endian integers: the vocabulary every other module shares. */
module Base {

  type Byte = x: int | 0 <= x < 0x100 witness 0
  type U16 = x: int | 0 <= x < 0x1_0000 witness 0
  type U32 = x: int | 0 <= x < 0x1_0000_0000 witness 0

  /** usize and u64 on the 64-bit targets the program is built for. */
  const USIZE_MODULUS: nat := 0x1_0000_0000_0000_0000

  datatype Option<+T> = None | Some(value: T)

  datatype Result<+T, +E> = Ok(value: T) | Err(error: E)

  function Min(a: nat, b: nat): nat {
    if a <= b then a else b
  }

  function Max(a: nat, b: nat): nat {
    if a >= b then a else b
  }

  lemma {:induction false} MulMonotone(a: int, b: int, p: nat)
    ensures a <= b ==> a * p <= b * p
  {
    if a <= b {
      assert (b - a) * p >= 0;
    }
  }

  /** Rust's `div_ceil`. */
  function DivCeil(n: nat, d: nat): (q: nat)
    requires d > 0
    ensures n <= q * d
    ensures n > 0 ==> q > 0 && (q - 1) * d < n
    ensures n == 0 ==> q == 0
  {
    assert n == (n / d) * d + n % d;
    if n % d == 0 then n / d else n / d + 1
  }

  // ---------------------------------------------------------------- concatenation

  /** The concatenation of a list of byte strings. */
  function Concat<T>(parts: seq<seq<T>>): seq<T> {
    if parts == [] then [] else parts[0] + Concat(parts[1..])
  }

  lemma {:induction false} ConcatAppend<T>(left: seq<seq<T>>, right: seq<seq<T>>)
    ensures Concat(left + right) == Concat(left) + Concat(right)
  {
    if left == [] {
      assert left + right == right;
    } else {
      ConcatAppend(left[1..], right);
      assert (left + right)[1..] == left[1..] + right;
      assert (left + right)[0] == left[0];
    }
  }

  lemma {:induction false} ConcatSnoc<T>(parts: seq<seq<T>>, last: seq<T>)
    ensures Concat(parts + [last]) == Concat(parts) + last
  {
    ConcatAppend(parts, [last]);
    assert Concat([last]) == last + [];
  }

  lemma {:induction false} ConcatTake<T>(parts: seq<seq<T>>, i: nat)
    requires i < |parts|
    ensures Concat(parts[..i + 1]) == Concat(parts[..i]) + parts[i]
  {
    ConcatSnoc(parts[..i], parts[i]);
    assert parts[..i + 1] == parts[..i] + [parts[i]];
  }

  // ---------------------------------------------------------------- chunks

  /** Rust's `chunks`: consecutive pieces of `size` elements, the last one possibly shorter. */
  function Chunks<T>(data: seq<T>, size: nat): (parts: seq<seq<T>>)
    requires size > 0
    ensures data == [] <==> parts == []
  {
    if data == [] then []
    else if |data| <= size then [data]
    else [data[..size]] + Chunks(data[size..], size)
  }

  lemma {:induction false} ConcatChunks<T>(data: seq<T>, size: nat)
    requires size > 0
    ensures Concat(Chunks(data, size)) == data
  {
    if data == [] {
    } else if |data| <= size {
      assert Concat([data]) == data + Concat([]);
    } else {
      ConcatChunks(data[size..], size);
      assert ([data[..size]] + Chunks(data[size..], size))[1..] == Chunks(data[size..], size);
    }
  }

  /** The number of chunks, and where chunk `i` lies. */
  lemma {:induction false} ChunkCount<T>(data: seq<T>, size: nat)
    requires size > 0
    ensures |Chunks(data, size)| == DivCeil(|data|, size)
  {
    if |data| > size {
      ChunkCount(data[size..], size);
      DivCeilUnique(|data|, size, 1 + DivCeil(|data| - size, size));
    } else if |data| > 0 {
      DivCeilUnique(|data|, size, 1);
    }
  }

  lemma {:induction false} DivCeilUnique(n: nat, d: nat, q: nat)
    requires d > 0 && q > 0 && (q - 1) * d < n <= q * d
    ensures DivCeil(n, d) == q
  {
    var r := DivCeil(n, d);
    MulMonotone(r, q - 1, d);
    MulMonotone(q, r - 1, d);
  }

  lemma {:induction false} ChunkAt<T>(data: seq<T>, size: nat, i: nat)
    requires size > 0 && i < |Chunks(data, size)|
    ensures 0 <= i * size < |data|
    ensures Chunks(data, size)[i] == data[i * size..Min(i * size + size, |data|)]
  {
    if |data| > size && i > 0 {
      ChunkAt(data[size..], size, i - 1);
      assert i * size == (i - 1) * size + size;
    }
  }

  /** Lists of pieces whose sizes follow the pattern of `Chunks` are exactly what `Chunks` returns. */
  lemma {:induction false} ChunksUnique<T>(parts: seq<seq<T>>, size: nat)
    requires size > 0
    requires forall i | 0 <= i < |parts| - 1 :: |parts[i]| == size
    requires parts != [] ==> 0 < |parts[|parts| - 1]| <= size
    ensures Chunks(Concat(parts), size) == parts
  {
    if |parts| == 1 {
      assert Concat(parts) == parts[0] + Concat(parts[1..]) == parts[0];
    } else if |parts| > 1 {
      ChunksUnique(parts[1..], size);
      var data := Concat(parts);
      assert data[..size] == parts[0] && data[size..] == Concat(parts[1..]);
    }
  }

  // ---------------------------------------------------------------- big-endian integers

  function Pow256(n: nat): (p: nat)
    ensures p >= 1
  {
    if n == 0 then 1 else 256 * Pow256(n - 1)
  }

  /** The `width` low-order bytes of `n`, most significant first (`to_be_bytes`). */
  function BigEndian(n: nat, width: nat): (s: seq<Byte>)
    ensures |s| == width
  {
    if width == 0 then [] else BigEndian(n / 256, width - 1) + [n % 256]
  }

  /** The integer a byte string denotes, most significant byte first (`from_be_bytes`). */
  function FromBigEndian(s: seq<Byte>): nat {
    if s == [] then 0 else FromBigEndian(s[..|s| - 1]) * 256 + s[|s| - 1]
  }

  lemma {:induction false} FromBigEndianInverts(n: nat, width: nat)
    requires n < Pow256(width)
    ensures FromBigEndian(BigEndian(n, width)) == n
  {
    if width > 0 {
      FromBigEndianInverts(n / 256, width - 1);
      assert BigEndian(n, width)[..width - 1] == BigEndian(n / 256, width - 1);
    }
  }

  lemma {:induction false} BigEndianInverts(s: seq<Byte>)
    ensures BigEndian(FromBigEndian(s), |s|) == s
  {
    if s != [] {
      var init, last := s[..|s| - 1], s[|s| - 1];
      BigEndianInverts(init);
      assert (FromBigEndian(init) * 256 + last) / 256 == FromBigEndian(init);
      assert s == init + [last];
    }
  }

  lemma {:induction false} FromBigEndianTake(s: seq<Byte>, i: nat)
    requires i < |s|
    ensures FromBigEndian(s[..i + 1]) == FromBigEndian(s[..i]) * 256 + s[i]
  {
    assert s[..i + 1][..i] == s[..i];
  }

  lemma {:induction false} FromBigEndianBound(s: seq<Byte>)
    ensures FromBigEndian(s) < Pow256(|s|)
  {
    if s != [] {
      FromBigEndianBound(s[..|s| - 1]);
    }
  }

  lemma {:induction false} FromBigEndianHead(head: Byte, tail: seq<Byte>)
    ensures FromBigEndian([head] + tail) == head * Pow256(|tail|) + FromBigEndian(tail)
  {
    var s := [head] + tail;
    if tail == [] {
      assert s[..0] == [];
    } else {
      var init := tail[..|tail| - 1];
      FromBigEndianHead(head, init);
      assert s[..|s| - 1] == [head] + init;
      assert head * Pow256(|tail|) == head * Pow256(|init|) * 256;
    }
  }

  lemma {:induction false} BigEndian2(n: nat)
    ensures BigEndian(n, 2) == [n / 0x100 % 256, n % 256]
  {
    assert BigEndian(n / 0x100, 1) == BigEndian(n / 0x100 / 256, 0) + [n / 0x100 % 256];
  }

  lemma {:induction false} BigEndian4(n: nat)
    ensures BigEndian(n, 4) == [n / 0x100_0000 % 256, n / 0x1_0000 % 256, n / 0x100 % 256, n % 256]
  {
    BigEndian2(n / 0x1_0000);
    assert n / 0x100 / 0x100 == n / 0x1_0000;
    assert n / 0x1_0000 / 0x100 == n / 0x100_0000;
    assert BigEndian(n / 0x100, 3) == BigEndian(n / 0x1_0000, 2) + [n / 0x100 % 256];
  }

  // ---------------------------------------------------------------- bits

  function Pow2(n: nat): (p: nat)
    ensures p >= 1
  {
    if n == 0 then 1 else 2 * Pow2(n - 1)
  }

  /** Bit `i` of a number, counted from the low end. */
  function Bit(n: nat, i: nat): nat {
    if i == 0 then n % 2 else Bit(n / 2, i - 1)
  }

  lemma {:induction false} BitIsBit(n: nat, i: nat)
    ensures Bit(n, i) == 0 || Bit(n, i) == 1
  {
    if i > 0 {
      BitIsBit(n / 2, i - 1);
    }
  }

  /** `|` on the `n` low bits. */
  function OrBits(a: nat, b: nat, n: nat): (x: nat)
    ensures x < Pow2(n)
  {
    if n == 0 then 0 else (if a % 2 == 1 || b % 2 == 1 then 1 else 0) + 2 * OrBits(a / 2, b / 2, n - 1)
  }

  lemma {:induction false} OrZero(b: nat, n: nat)
    requires b < Pow2(n)
    ensures OrBits(0, b, n) == b
  {
    if n > 0 {
      OrZero(b / 2, n - 1);
    }
  }

  /** An or of numbers without common bits is their sum. */
  lemma {:induction false} OrIsSum(low: nat, high: nat, k: nat, n: nat)
    requires low < Pow2(k) && k <= n && high * Pow2(k) < Pow2(n)
    ensures OrBits(low, high * Pow2(k), n) == low + high * Pow2(k)
  {
    if k == 0 {
      OrZero(high, n);
    } else {
      assert high * Pow2(k) == 2 * (high * Pow2(k - 1));
      OrIsSum(low / 2, high, k - 1, n - 1);
    }
  }

  /** `|` on u8. */
  function Or(a: Byte, b: Byte): Byte {
    Pow2Of8();
    OrBits(a, b, 8)
  }

  lemma {:induction false} Pow2Of8()
    ensures Pow2(6) == 64 && Pow2(8) == 256
  {
    assert Pow2(4) == 16 && Pow2(5) == 2 * Pow2(4) && Pow2(6) == 2 * Pow2(5);
    assert Pow2(7) == 2 * Pow2(6) && Pow2(8) == 2 * Pow2(7);
  }

  /** Bitwise exclusive or of the `n` low bits. */
  function XorBits(a: nat, b: nat, n: nat): (x: nat)
    ensures x < Pow2(n)
  {
    if n == 0 then 0
    else (if a % 2 == b % 2 then 0 else 1) + 2 * XorBits(a / 2, b / 2, n - 1)
  }

  /** `^` on u8. */
  function Xor(a: Byte, b: Byte): (x: Byte) {
    Pow2Of8();
    XorBits(a, b, 8)
  }

  lemma {:induction false} XorBitsTwice(a: nat, b: nat, n: nat)
    requires a < Pow2(n)
    ensures XorBits(XorBits(a, b, n), b, n) == a
  {
    if n > 0 {
      XorBitsTwice(a / 2, b / 2, n - 1);
      var x := XorBits(a, b, n);
      assert x / 2 == XorBits(a / 2, b / 2, n - 1);
      assert x % 2 == if a % 2 == b % 2 then 0 else 1;
    }
  }

  /** Applying the same key byte twice gives the byte back. */
  lemma {:induction false} XorTwice(a: Byte, b: Byte)
    ensures Xor(Xor(a, b), b) == a
  {
    Pow2Of8();
    XorBitsTwice(a, b, 8);
  }

  /** Bit by bit, the exclusive or says where the two differ. */
  lemma {:induction false} BitOfXor(a: nat, b: nat, n: nat, i: nat)
    requires i < n
    ensures Bit(XorBits(a, b, n), i) == 1 <==> Bit(a, i) != Bit(b, i)
  {
    if i > 0 {
      BitOfXor(a / 2, b / 2, n - 1, i - 1);
    }
  }

  /** Different keys mask a byte differently. */
  lemma {:induction false} XorInjective(a: Byte, b: Byte, c: Byte)
    ensures Xor(a, b) == Xor(a, c) <==> b == c
  {
    if Xor(a, b) == Xor(a, c) {
      Pow2Of8();
      XorBitsInjective(a, b, c, 8);
    }
  }

  lemma {:induction false} XorBitsInjective(a: nat, b: nat, c: nat, n: nat)
    requires b < Pow2(n) && c < Pow2(n) && XorBits(a, b, n) == XorBits(a, c, n)
    ensures b == c
  {
    if n > 0 {
      XorBitsInjective(a / 2, b / 2, c / 2, n - 1);
    }
  }

  // ---------------------------------------------------------------- text

  const CR: Byte := 13
  const LF: Byte := 10
  const CRLF: seq<Byte> := [13, 10]
  const SEMICOLON: Byte := 59

  predicate IsHexDigit(b: Byte) {
    48 <= b <= 57 || 65 <= b <= 70 || 97 <= b <= 102
  }

  function DigitValue(b: Byte): nat
    requires IsHexDigit(b)
  {
    if b <= 57 then b - 48 else if b <= 70 then b - 55 else b - 87
  }

  predicate HexText(s: seq<Byte>) {
    forall i | 0 <= i < |s| :: IsHexDigit(s[i])
  }

  function HexValue(s: seq<Byte>): nat
    requires HexText(s)
  {
    if s == [] then 0 else HexValue(s[..|s| - 1]) * 16 + DigitValue(s[|s| - 1])
  }

  /** The text 0123456789ABCDEF, and the same in lower case. */
  const UPPER_DIGITS: seq<Byte> := [48, 49, 50, 51, 52, 53, 54, 55, 56, 57, 65, 66, 67, 68, 69, 70]
  const LOWER_DIGITS: seq<Byte> := [48, 49, 50, 51, 52, 53, 54, 55, 56, 57, 97, 98, 99, 100, 101, 102]

  /** The value of a digit is its place in that text, in either case; nothing else is a digit. */
  lemma {:induction false} DigitPlace(b: Byte)
    ensures IsHexDigit(b) <==> b in UPPER_DIGITS || b in LOWER_DIGITS
    ensures forall i | 0 <= i < 16 && (UPPER_DIGITS[i] == b || LOWER_DIGITS[i] == b) ::
              IsHexDigit(b) && DigitValue(b) == i
  {
    if IsHexDigit(b) {
      var n := DigitValue(b);
      assert UPPER_DIGITS[n] == b || LOWER_DIGITS[n] == b;
    }
  }

  /** The hexadecimal notation of a number. */
  function HexNotation(n: nat): seq<Byte> {
    if n < 16 then [UPPER_DIGITS[n]] else HexNotation(n / 16) + [UPPER_DIGITS[n % 16]]
  }

  /** The value of a number's notation is the number. */
  lemma {:induction false} HexValueOfNotation(n: nat)
    ensures HexText(HexNotation(n)) && HexValue(HexNotation(n)) == n
  {
    var s := HexNotation(n);
    DigitPlace(UPPER_DIGITS[n % 16]);
    if n < 16 {
      assert s[..0] == [];
    } else {
      HexValueOfNotation(n / 16);
      assert s[..|s| - 1] == HexNotation(n / 16);
    }
  }
}
