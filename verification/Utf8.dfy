/** Well-formed UTF-8: what `str::from_utf8` and `String::from_utf8` accept. */
module Utf8 {
  import opened Base

  predicate Continuation(b: Byte) {
    0x80 <= b <= 0xBF
  }

  /** `str::from_utf8` (table 3-7 of the Unicode Standard). */
  predicate ValidUtf8(s: seq<Byte>) {
    if s == [] then true
    else if s[0] < 0x80 then ValidUtf8(s[1..])
    else if |s| >= 2 && 0xC2 <= s[0] <= 0xDF then Continuation(s[1]) && ValidUtf8(s[2..])
    else if |s| >= 3 && 0xE0 <= s[0] <= 0xEF then
      && Continuation(s[1]) && Continuation(s[2])
      && (s[0] == 0xE0 ==> s[1] >= 0xA0) && (s[0] == 0xED ==> s[1] <= 0x9F)
      && ValidUtf8(s[3..])
    else if |s| >= 4 && 0xF0 <= s[0] <= 0xF4 then
      && Continuation(s[1]) && Continuation(s[2]) && Continuation(s[3])
      && (s[0] == 0xF0 ==> s[1] >= 0x90) && (s[0] == 0xF4 ==> s[1] <= 0x8F)
      && ValidUtf8(s[4..])
    else false
  }

  // ================================================================ the encoding of RFC 3629

  /** A Unicode scalar value: a code point that is not a surrogate. */
  predicate IsScalar(c: nat) {
    c < 0xD800 || 0xE000 <= c < 0x11_0000
  }

  /** The table in section 3 of RFC 3629. */
  function EncodeScalar(c: nat): (s: seq<Byte>)
    requires IsScalar(c)
    ensures 1 <= |s| <= 4
  {
    if c < 0x80 then [c]
    else if c < 0x800 then [0xC0 + c / 0x40, 0x80 + c % 0x40]
    else if c < 0x1_0000 then [0xE0 + c / 0x1000, 0x80 + c / 0x40 % 0x40, 0x80 + c % 0x40]
    else [0xF0 + c / 0x4_0000, 0x80 + c / 0x1000 % 0x40, 0x80 + c / 0x40 % 0x40, 0x80 + c % 0x40]
  }

  predicate Scalars(text: seq<nat>) {
    forall i | 0 <= i < |text| :: IsScalar(text[i])
  }

  function EncodeText(text: seq<nat>): seq<Byte>
    requires Scalars(text)
  {
    if text == [] then [] else EncodeScalar(text[0]) + EncodeText(text[1..])
  }

  lemma {:induction false} EncodeTextSnoc(text: seq<nat>, c: nat)
    requires Scalars(text) && IsScalar(c)
    ensures EncodeText(text + [c]) == EncodeText(text) + EncodeScalar(c)
  {
    if text == [] {
      assert text + [c] == [c];
    } else {
      assert (text + [c])[1..] == text[1..] + [c];
      EncodeTextSnoc(text[1..], c);
    }
  }

  /** The encoding of any text is accepted. */
  lemma {:induction false} EncodedIsValid(text: seq<nat>)
    requires Scalars(text)
    ensures ValidUtf8(EncodeText(text))
  {
    if text != [] {
      EncodedIsValid(text[1..]);
      EncodedHead(text[0], EncodeText(text[1..]));
    }
  }

  lemma {:induction false} EncodedHead(c: nat, rest: seq<Byte>)
    requires IsScalar(c) && ValidUtf8(rest)
    ensures ValidUtf8(EncodeScalar(c) + rest)
  {
    var head := EncodeScalar(c);
    var s := head + rest;
    assert s[|head|..] == rest;
    if c < 0x800 {
      assert s[0] == head[0] && (c >= 0x80 ==> s[1] == head[1]);
    } else if c < 0x1_0000 {
      assert s[0] == head[0] && s[1] == head[1] && s[2] == head[2];
    } else {
      assert s[0] == head[0] && s[1] == head[1] && s[2] == head[2] && s[3] == head[3];
    }
  }

  /** And nothing else is. */
  lemma {:induction false} ValidIsEncoded(s: seq<Byte>) returns (text: seq<nat>)
    requires ValidUtf8(s)
    ensures Scalars(text) && EncodeText(text) == s
  {
    if s == [] {
      text := [];
    } else {
      var c := FirstScalar(s);
      var head := EncodeScalar(c);
      var rest := ValidIsEncoded(s[|head|..]);
      text := [c] + rest;
      assert text[1..] == rest && s == head + s[|head|..];
    }
  }

  /** `s` begins with the encoding of `c`, and with that removed is still accepted. */
  ghost predicate Begins(s: seq<Byte>, c: nat) {
    IsScalar(c) && EncodeScalar(c) <= s && ValidUtf8(s[|EncodeScalar(c)|..])
  }

  lemma {:induction false} FirstScalar(s: seq<Byte>) returns (c: nat)
    requires s != [] && ValidUtf8(s)
    ensures Begins(s, c)
  {
    if s[0] < 0x80 {
      c := s[0];
      assert EncodeScalar(c) == s[..1];
    } else if s[0] <= 0xDF {
      c := Two(s[0] - 0xC0, s[1] - 0x80);
      assert EncodeScalar(c) == s[..2];
    } else if s[0] <= 0xEF {
      c := Three(s[0] - 0xE0, s[1] - 0x80, s[2] - 0x80);
      assert EncodeScalar(c) == s[..3];
    } else {
      c := Four(s[0] - 0xF0, s[1] - 0x80, s[2] - 0x80, s[3] - 0x80);
      assert EncodeScalar(c) == s[..4];
    }
  }

  lemma {:induction false} Two(a: nat, b: nat) returns (c: nat)
    requires b < 0x40
    ensures c == a * 0x40 + b
    ensures c / 0x40 == a && c % 0x40 == b
  {
    c := a * 0x40 + b;
  }

  lemma {:induction false} Three(a: nat, b: nat, d: nat) returns (c: nat)
    requires b < 0x40 && d < 0x40
    ensures c == a * 0x1000 + b * 0x40 + d
    ensures c / 0x1000 == a && c / 0x40 % 0x40 == b && c % 0x40 == d
  {
    var high := Two(a, b);
    c := Two(high, d);
    assert c / 0x1000 == c / 0x40 / 0x40;
  }

  lemma {:induction false} Four(a: nat, b: nat, d: nat, e: nat) returns (c: nat)
    requires b < 0x40 && d < 0x40 && e < 0x40
    ensures c == a * 0x4_0000 + b * 0x1000 + d * 0x40 + e
    ensures c / 0x4_0000 == a && c / 0x1000 % 0x40 == b && c / 0x40 % 0x40 == d && c % 0x40 == e
  {
    var high := Three(a, b, d);
    c := Two(high, e);
    assert c / 0x1000 == c / 0x40 / 0x40 && c / 0x4_0000 == c / 0x40 / 0x1000;
  }
}
