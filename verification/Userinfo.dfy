/** The authentication part of share URIs: `encode_auth` in app/src/share.rs, its decoder in app/src/config.rs. */
module Userinfo {
  import opened Base
  import opened Utf8

  const PERCENT: Byte := 37
  const COLON: Byte := 58

  datatype AuthError = InvalidPercentEncoding | InvalidUtf8

  // ================================================================ bytes

  predicate IsAlphanumeric(b: Byte) {
    48 <= b <= 57 || 65 <= b <= 90 || 97 <= b <= 122
  }

  /** `should_escape_userinfo`: all but letters, digits and - _ . ~ $ & + , ; = */
  predicate ShouldEscape(b: Byte) {
    !(IsAlphanumeric(b) || b == 45 || b == 95 || b == 46 || b == 126 || b == 36 || b == 38 || b == 43
      || b == 44 || b == 59 || b == 61)
  }

  /** The upper-case hexadecimal digit of a nibble. */
  function HexDigit(n: nat): Byte
    requires n < 16
  {
    if n < 10 then 48 + n else 55 + n
  }

  /** `percent_nibble`. */
  function PercentNibble(b: Byte): Result<nat, AuthError> {
    if 48 <= b <= 57 then Ok(b - 48)
    else if 97 <= b <= 102 then Ok(b - 97 + 10)
    else if 65 <= b <= 70 then Ok(b - 65 + 10)
    else Err(InvalidPercentEncoding)
  }

  /** Which bytes are written as escapes. */
  type Escapes = Byte -> bool

  function EscapeByte(should: Escapes, b: Byte): seq<Byte> {
    if should(b) then [PERCENT, HexDigit(b / 16), HexDigit(b % 16)] else [b]
  }

  // ================================================================ components

  function Escape(should: Escapes, s: seq<Byte>): seq<Byte> {
    if s == [] then [] else Escape(should, s[..|s| - 1]) + EscapeByte(should, s[|s| - 1])
  }

  /** The decoding loop from position `i` on. */
  function Unescape(s: seq<Byte>, i: nat): (r: Result<seq<Byte>, AuthError>)
    requires i <= |s|
    decreases |s| - i
  {
    if i == |s| then Ok([])
    else if s[i] != PERCENT then Prepend(s[i], Unescape(s, i + 1))
    else if i + 2 >= |s| then Err(InvalidPercentEncoding)
    else
      match (PercentNibble(s[i + 1]), PercentNibble(s[i + 2]))
      case (Ok(high), Ok(low)) =>
        assert high < 16 && low < 16;
        Prepend(high * 16 + low, Unescape(s, i + 3))
      case _ => Err(InvalidPercentEncoding)
  }

  function Prepend(b: Byte, r: Result<seq<Byte>, AuthError>): Result<seq<Byte>, AuthError> {
    if r.Ok? then Ok([b] + r.value) else r
  }

  /** `decode_userinfo_component`. */
  function Decode(s: seq<Byte>): Result<seq<Byte>, AuthError> {
    if PERCENT !in s then Ok(s)
    else
      match Unescape(s, 0)
      case Err(e) => Err(e)
      case Ok(decoded) => if ValidUtf8(decoded) then Ok(decoded) else Err(InvalidUtf8)
  }

  /** `escape_userinfo_component`. */
  method EscapeComponent(input: seq<Byte>) returns (output: seq<Byte>)
    ensures output == Escape(ShouldEscape, input)
  {
    output := [];
    for i := 0 to |input|
      invariant output == Escape(ShouldEscape, input[..i])
    {
      assert input[..i + 1][..i] == input[..i];
      var b := input[i];
      if ShouldEscape(b) {
        output := output + [PERCENT];
        output := output + [HexDigit(b / 16)];
        output := output + [HexDigit(b % 16)];
      } else {
        output := output + [b];
      }
      assert output == Escape(ShouldEscape, input[..i]) + EscapeByte(ShouldEscape, b);
    }
    assert input[..|input|] == input;
  }

  ghost function Append(decoded: seq<Byte>, rest: Result<seq<Byte>, AuthError>): Result<seq<Byte>, AuthError> {
    if rest.Ok? then Ok(decoded + rest.value) else rest
  }

  /** Decoding one more byte moves it from the rest to the decoded part. */
  lemma {:induction false} Reappend(decoded: seq<Byte>)
    ensures forall b: Byte, r :: Append(decoded, Prepend(b, r)) == Append(decoded + [b], r)
  {
    forall b: Byte, r: Result<seq<Byte>, AuthError>
      ensures Append(decoded, Prepend(b, r)) == Append(decoded + [b], r)
    {
      if r.Ok? {
        assert decoded + ([b] + r.value) == decoded + [b] + r.value;
      }
    }
  }

  /** `decode_userinfo_component`. */
  method DecodeComponent(input: seq<Byte>) returns (r: Result<seq<Byte>, AuthError>)
    ensures r == Decode(input)
  {
    if PERCENT !in input {
      return Ok(input);
    }
    var decoded: seq<Byte> := [];
    var index := 0;
    ghost var whole := Unescape(input, 0);
    assert whole.Ok? ==> [] + whole.value == whole.value;
    while index < |input|
      invariant index <= |input|
      invariant whole == Append(decoded, Unescape(input, index))
    {
      Reappend(decoded);
      if input[index] == PERCENT {
        if index + 2 >= |input| {
          return Err(InvalidPercentEncoding);
        }
        var high := PercentNibble(input[index + 1]);
        if high.Err? {
          return Err(InvalidPercentEncoding);
        }
        var low := PercentNibble(input[index + 2]);
        if low.Err? {
          return Err(InvalidPercentEncoding);
        }
        decoded := decoded + [high.value * 16 + low.value];
        index := index + 3;
      } else {
        decoded := decoded + [input[index]];
        index := index + 1;
      }
    }
    assert decoded + [] == decoded;
    if !ValidUtf8(decoded) {
      return Err(InvalidUtf8);
    }
    return Ok(decoded);
  }

  // ================================================================ round trips

  lemma {:induction false} NibblesInvert(b: Byte)
    ensures PercentNibble(HexDigit(b / 16)) == Ok(b / 16) && PercentNibble(HexDigit(b % 16)) == Ok(b % 16)
  {
  }

  /** The decoder reads an escaped byte and goes on behind it. */
  lemma {:induction false} UnescapeByte(should: Escapes, s: seq<Byte>, i: nat, b: Byte)
    requires should(PERCENT)
    requires i + |EscapeByte(should, b)| <= |s| && s[i..i + |EscapeByte(should, b)|] == EscapeByte(should, b)
    ensures Unescape(s, i) == Prepend(b, Unescape(s, i + |EscapeByte(should, b)|))
  {
    NibblesInvert(b);
    var e := EscapeByte(should, b);
    var here := s[i..i + |e|];
    assert here[0] == s[i];
    assert |e| == 3 ==> here[1] == s[i + 1] && here[2] == s[i + 2];
  }

  lemma {:induction false} EscapeHead(should: Escapes, s: seq<Byte>)
    requires s != []
    ensures Escape(should, s) == EscapeByte(should, s[0]) + Escape(should, s[1..])
  {
    if |s| > 1 {
      var init := s[..|s| - 1];
      EscapeHead(should, init);
      assert init[1..] == s[1..][..|s| - 2];
    } else {
      assert s[..0] == [] && s[1..] == [];
    }
  }

  lemma {:induction false} UnescapeFrom(should: Escapes, s: seq<Byte>, i: nat, tail: seq<Byte>)
    requires should(PERCENT) && i <= |s| && s[i..] == Escape(should, tail)
    ensures Unescape(s, i) == Ok(tail)
    decreases |tail|
  {
    if tail == [] {
      assert |s[i..]| == 0;
    } else {
      UnescapeStep(should, s, i, tail);
      UnescapeFrom(should, s, i + |EscapeByte(should, tail[0])|, tail[1..]);
      assert tail == [tail[0]] + tail[1..];
    }
  }

  lemma {:induction false} UnescapeStep(should: Escapes, s: seq<Byte>, i: nat, tail: seq<Byte>)
    requires should(PERCENT) && i <= |s| && tail != [] && s[i..] == Escape(should, tail)
    ensures
      var next := i + |EscapeByte(should, tail[0])|;
      && next <= |s| && s[next..] == Escape(should, tail[1..])
      && Unescape(s, i) == Prepend(tail[0], Unescape(s, next))
  {
    EscapeHead(should, tail);
    Advance(s, i, EscapeByte(should, tail[0]), Escape(should, tail[1..]));
    UnescapeByte(should, s, i, tail[0]);
  }

  lemma {:induction false} Advance(s: seq<Byte>, i: nat, front: seq<Byte>, rest: seq<Byte>)
    requires i <= |s| && s[i..] == front + rest
    ensures i + |front| <= |s| && s[i..i + |front|] == front && s[i + |front|..] == rest
  {
    assert |s| - i == |front| + |rest|;
    assert s[i..i + |front|] == s[i..][..|front|];
    assert s[i + |front|..] == s[i..][|front|..];
  }

  /** Escaped text consists of unreserved bytes and percent signs: none of : @ / ? # can occur in it. */
  lemma {:induction false} EscapedBytes(s: seq<Byte>)
    ensures forall b | b in Escape(ShouldEscape, s) :: b == PERCENT || !ShouldEscape(b)
    ensures forall b | b in Escape(ShouldEscape, s) :: b != COLON && b != 64 && b != 47 && b != 63 && b != 35
  {
    if s != [] {
      EscapedBytes(s[..|s| - 1]);
    }
  }

  lemma {:induction false} NothingEscaped(should: Escapes, s: seq<Byte>)
    requires PERCENT !in Escape(should, s)
    ensures Escape(should, s) == s
  {
    if s != [] {
      var init, last := Escape(should, s[..|s| - 1]), EscapeByte(should, s[|s| - 1]);
      assert Escape(should, s) == init + last;
      assert PERCENT !in init && PERCENT !in last;
      NothingEscaped(should, s[..|s| - 1]);
      assert last[0] in last;
    }
  }

  /** Decoding undoes escaping on every string, whichever bytes are escaped besides the percent sign. */
  lemma {:induction false} DecodeEscape(should: Escapes, s: seq<Byte>)
    requires should(PERCENT) && ValidUtf8(s)
    ensures Decode(Escape(should, s)) == Ok(s)
  {
    var escaped := Escape(should, s);
    if PERCENT in escaped {
      assert escaped[0..] == escaped;
      UnescapeFrom(should, escaped, 0, s);
    } else {
      NothingEscaped(should, s);
    }
  }

  // ---------------------------------------------------------------- what decodes, and to what

  /** A byte that is not a percent sign, or two hexadecimal digits behind one. */
  datatype Piece = Literal(b: Byte) | Percent(high: Byte, low: Byte)

  predicate GoodPiece(p: Piece) {
    match p
    case Literal(b) => b != 37
    case Percent(high, low) => IsHexDigit(high) && IsHexDigit(low)
  }

  predicate GoodPieces(ps: seq<Piece>) {
    forall i | 0 <= i < |ps| :: GoodPiece(ps[i])
  }

  function Text(p: Piece): seq<Byte> {
    match p
    case Literal(b) => [b]
    case Percent(high, low) => [37, high, low]
  }

  /** The byte a piece stands for; digits count the same in either case. */
  function Meaning(p: Piece): Byte
    requires GoodPiece(p)
  {
    match p
    case Literal(b) => b
    case Percent(high, low) => DigitValue(high) * 16 + DigitValue(low)
  }

  function Texts(ps: seq<Piece>): seq<Byte> {
    if ps == [] then [] else Text(ps[0]) + Texts(ps[1..])
  }

  function Meanings(ps: seq<Piece>): (s: seq<Byte>)
    requires GoodPieces(ps)
    ensures |s| == |ps|
  {
    seq(|ps|, i requires 0 <= i < |ps| => Meaning(ps[i]))
  }

  lemma {:induction false} NibbleIsDigit(b: Byte)
    ensures PercentNibble(b) == if IsHexDigit(b) then Ok(DigitValue(b)) else Err(InvalidPercentEncoding)
  {
  }

  /** Whatever is written in pieces decodes to what the pieces stand for. */
  lemma {:induction false} PiecesDecode(s: seq<Byte>, i: nat, ps: seq<Piece>)
    requires GoodPieces(ps) && i <= |s| && s[i..] == Texts(ps)
    ensures Unescape(s, i) == Ok(Meanings(ps))
    decreases |ps|
  {
    if ps == [] {
      assert |s[i..]| == 0;
    } else {
      var text := Text(ps[0]);
      Advance(s, i, text, Texts(ps[1..]));
      PiecesDecode(s, i + |text|, ps[1..]);
      PieceDecodes(s, i, ps[0]);
      assert Meanings(ps) == [Meaning(ps[0])] + Meanings(ps[1..]);
    }
  }

  lemma {:induction false} PieceDecodes(s: seq<Byte>, i: nat, p: Piece)
    requires GoodPiece(p) && i + |Text(p)| <= |s| && s[i..i + |Text(p)|] == Text(p)
    ensures Unescape(s, i) == Prepend(Meaning(p), Unescape(s, i + |Text(p)|))
  {
    var here := s[i..i + |Text(p)|];
    assert here[0] == s[i];
    if p.Percent? {
      assert here[1] == s[i + 1] && here[2] == s[i + 2];
      NibbleIsDigit(p.high);
      NibbleIsDigit(p.low);
    }
  }

  /** Every percent sign from `i` on is followed by two hexadecimal digits. */
  predicate WellEscaped(s: seq<Byte>, i: nat) {
    forall j | i <= j < |s| && s[j] == 37 :: j + 2 < |s| && IsHexDigit(s[j + 1]) && IsHexDigit(s[j + 2])
  }

  /** The decoding loop fails if and only if some percent sign is not followed by two hexadecimal digits. */
  lemma {:induction false} UnescapeIff(s: seq<Byte>, i: nat)
    requires i <= |s|
    ensures Unescape(s, i) == Err(InvalidPercentEncoding) <==> !WellEscaped(s, i)
    ensures Unescape(s, i).Ok? <==> WellEscaped(s, i)
    decreases |s| - i
  {
    if i < |s| {
      if s[i] != 37 {
        UnescapeIff(s, i + 1);
      } else if i + 2 < |s| {
        NibbleIsDigit(s[i + 1]);
        NibbleIsDigit(s[i + 2]);
        UnescapeIff(s, i + 3);
      }
    }
  }

  /**
   * Text written in pieces, its digits in either case, decodes to what the pieces stand for, unless it holds an
   * escape and that is not UTF-8.
   */
  lemma {:induction false} DecodePieces(ps: seq<Piece>)
    requires GoodPieces(ps)
    ensures Decode(Texts(ps)) ==
            if 37 !in Texts(ps) || ValidUtf8(Meanings(ps)) then Ok(Meanings(ps)) else Err(InvalidUtf8)
  {
    var s := Texts(ps);
    assert s[0..] == s;
    PiecesDecode(s, 0, ps);
    if 37 !in s {
      AllLiteral(s, 0);
    }
  }

  lemma {:induction false} AllLiteral(s: seq<Byte>, i: nat)
    requires i <= |s| && 37 !in s
    ensures Unescape(s, i) == Ok(s[i..])
    decreases |s| - i
  {
    if i < |s| {
      assert s[i] in s;
      AllLiteral(s, i + 1);
      assert s[i..] == [s[i]] + s[i + 1..];
    } else {
      assert s[i..] == [];
    }
  }

  /** Text whose percent signs are followed by digits is written in pieces. */
  lemma {:induction false} PiecesOf(s: seq<Byte>, i: nat) returns (ps: seq<Piece>)
    requires i <= |s| && WellEscaped(s, i)
    ensures GoodPieces(ps) && s[i..] == Texts(ps)
    decreases |s| - i
  {
    if i == |s| {
      ps := [];
    } else {
      var p := if s[i] == 37 then Percent(s[i + 1], s[i + 2]) else Literal(s[i]);
      var rest := PiecesOf(s, i + |Text(p)|);
      ps := [p] + rest;
      assert ps[1..] == rest;
      assert s[i..] == Text(p) + s[i + |Text(p)|..];
    }
  }

  /** Decoding fails exactly on a percent sign without two digits behind it, or on a result that is not UTF-8. */
  lemma {:induction false} DecodeFailsIff(s: seq<Byte>)
    ensures Decode(s) == Err(InvalidPercentEncoding) <==> !WellEscaped(s, 0)
    ensures Decode(s) == Err(InvalidUtf8) <==>
            37 in s && WellEscaped(s, 0) && Unescape(s, 0).Ok? && !ValidUtf8(Unescape(s, 0).value)
  {
    UnescapeIff(s, 0);
  }

  /** The characters that are not escaped: letters, digits and ten marks. */
  predicate Unreserved(c: char) {
    'A' <= c <= 'Z' || 'a' <= c <= 'z' || '0' <= c <= '9' || c in "-_.~$&+,;="
  }

  /** A byte is escaped, as a percent sign and two upper-case digits, exactly when it is none of them. */
  lemma {:induction false} EscapedForm(b: Byte)
    ensures EscapeByte(ShouldEscape, b) ==
            if Unreserved(b as char) then [b] else [37, UPPER_DIGITS[b / 16], UPPER_DIGITS[b % 16]]
  {
    UnreservedAre(b);
    assert HexDigit(b / 16) == UPPER_DIGITS[b / 16] && HexDigit(b % 16) == UPPER_DIGITS[b % 16];
  }

  lemma {:induction false} UnreservedAre(b: Byte)
    ensures ShouldEscape(b) <==> !Unreserved(b as char)
  {
    var marks := "-_.~$&+,;=";
    assert marks[0] == '-' && marks[1] == '_' && marks[2] == '.' && marks[3] == '~' && marks[4] == '$';
    assert marks[5] == '&' && marks[6] == '+' && marks[7] == ',' && marks[8] == ';' && marks[9] == '=';
  }

  // ================================================================ the URL parser

  /**
   * The bytes a URL parser escapes in what it is given. It leaves escapes alone: neither a percent sign
   * nor a letter or digit is among them.
   */
  ghost predicate LeavesEscapes(also: Escapes) {
    forall b: Byte | also(b) :: b != PERCENT && !IsAlphanumeric(b)
  }

  function Also(also: Escapes): Escapes {
    (b: Byte) => also(b) || ShouldEscape(b)
  }

  lemma {:induction false} EscapeAppend(should: Escapes, s: seq<Byte>, t: seq<Byte>)
    ensures Escape(should, s + t) == Escape(should, s) + Escape(should, t)
  {
    if t == [] {
      assert s + t == s;
    } else {
      var init, last := t[..|t| - 1], EscapeByte(should, t[|t| - 1]);
      var front := Escape(should, s);
      EscapeAppend(should, s, init);
      assert (s + t)[..|s + t| - 1] == s + init;
      assert front + Escape(should, init) + last == front + (Escape(should, init) + last);
    }
  }

  /** Escaping some more bytes of escaped text is escaping those bytes as well. */
  lemma {:induction false} EscapeTwice(also: Escapes, s: seq<Byte>)
    requires LeavesEscapes(also)
    ensures Escape(also, Escape(ShouldEscape, s)) == Escape(Also(also), s)
  {
    if s != [] {
      var init, b := s[..|s| - 1], s[|s| - 1];
      EscapeTwice(also, init);
      EscapeAppend(also, Escape(ShouldEscape, init), EscapeByte(ShouldEscape, b));
      ByteTwice(also, b);
    }
  }

  lemma {:induction false} ByteTwice(also: Escapes, b: Byte)
    requires LeavesEscapes(also)
    ensures Escape(also, EscapeByte(ShouldEscape, b)) == EscapeByte(Also(also), b)
  {
    var e := EscapeByte(ShouldEscape, b);
    EscapeHead(also, e);
    if ShouldEscape(b) {
      assert IsAlphanumeric(e[1]) && IsAlphanumeric(e[2]);
      EscapeHead(also, e[1..]);
      EscapeHead(also, e[2..]);
      assert e[1..][1..] == e[2..] && e[2..][1..] == [];
    } else {
      assert e[1..] == [];
    }
  }

  // ================================================================ user name and password

  /** `split_once(':')`: the part before the first colon and, if there is one, the part after it. */
  function SplitOnce(s: seq<Byte>): (r: (seq<Byte>, Option<seq<Byte>>))
    ensures COLON !in r.0
    ensures s == Join(r.0, r.1)
  {
    if s == [] then ([], None)
    else if s[0] == COLON then ([], Some(s[1..]))
    else
      var (first, second) := SplitOnce(s[1..]);
      ([s[0]] + first, second)
  }

  function Join(first: seq<Byte>, second: Option<seq<Byte>>): seq<Byte> {
    if second.Some? then first + [COLON] + second.value else first
  }

  /** A string is split where its first colon is. */
  lemma {:induction false} SplitJoin(first: seq<Byte>, second: Option<seq<Byte>>)
    requires COLON !in first
    ensures SplitOnce(Join(first, second)) == (first, second)
  {
    if first == [] {
      if second.Some? {
        assert Join(first, second)[1..] == second.value;
      }
    } else {
      SplitJoin(first[1..], second);
      JoinTail(first, second);
      assert first == [first[0]] + first[1..];
    }
  }

  lemma {:induction false} JoinTail(first: seq<Byte>, second: Option<seq<Byte>>)
    requires first != []
    ensures Join(first, second)[0] == first[0] && Join(first, second)[1..] == Join(first[1..], second)
  {
  }

  /** `encode_auth`. */
  function EncodeAuth(auth: seq<Byte>): seq<Byte> {
    var (username, password) := SplitOnce(auth);
    Join(Escape(ShouldEscape, username),
         if password.Some? then Some(Escape(ShouldEscape, password.value)) else None)
  }

  /** The user information of a share URI, which has none when there is nothing to authenticate with. */
  function ShareUserinfo(auth: seq<Byte>): Option<seq<Byte>> {
    if auth == [] then None else Some(EncodeAuth(auth))
  }

  /**
   * What `Url::username` and `Url::password` return: the parser splits at the first colon and escapes
   * some more bytes, and an empty password is none.
   */
  function UrlCredentials(also: Escapes, userinfo: Option<seq<Byte>>): (seq<Byte>, Option<seq<Byte>>) {
    if userinfo.None? then ([], None)
    else
      var (username, password) := SplitOnce(userinfo.value);
      (Escape(also, username),
       if password.Some? && password.value != [] then Some(Escape(also, password.value)) else None)
  }

  /** The part of `normalize_client_config` that sets `auth`, from the value it had. */
  function DecodeAuth(also: Escapes, previous: seq<Byte>, userinfo: Option<seq<Byte>>): Result<seq<Byte>, AuthError> {
    var (username, password) := UrlCredentials(also, userinfo);
    if username == [] && password.None? then Ok(previous)
    else
      match Decode(username)
      case Err(e) => Err(e)
      case Ok(u) =>
        if password.None? then Ok(u)
        else
          match Decode(password.value)
          case Err(e) => Err(e)
          case Ok(p) => Ok(Join(u, Some(p)))
  }

  /** A colon never lies inside a character, so both halves of a string are strings. */
  lemma {:induction false} HalvesValid(first: seq<Byte>, second: seq<Byte>)
    requires COLON !in first && ValidUtf8(first + [COLON] + second)
    ensures ValidUtf8(first) && ValidUtf8(second)
  {
    var s := first + [COLON] + second;
    if first == [] {
      assert s[1..] == second;
    } else {
      var n := if s[0] < 0x80 then 1 else if s[0] <= 0xDF then 2 else if s[0] <= 0xEF then 3 else 4;
      assert s[|first|] == COLON;
      assert n <= |first|;
      assert s[n..] == first[n..] + [COLON] + second;
      HalvesValid(first[n..], second);
    }
  }

  /** The first colon is the last byte: a user name with an empty password. */
  predicate EmptyPassword(auth: seq<Byte>) {
    SplitOnce(auth).1 == Some([])
  }

  /** No user name, and no password or an empty one. */
  predicate NoCredentials(auth: seq<Byte>) {
    auth == [] || auth == [COLON]
  }

  /**
   * An authentication string survives being shared exactly when its first colon is not its last byte;
   * one without credentials leaves the receiving side's own string in place.
   */
  lemma {:induction false} AuthRoundTripIff(also: Escapes, previous: seq<Byte>, auth: seq<Byte>)
    requires LeavesEscapes(also) && ValidUtf8(auth)
    ensures DecodeAuth(also, previous, ShareUserinfo(auth)) == Ok(auth) <==>
            if NoCredentials(auth) then previous == auth else !EmptyPassword(auth)
  {
    if auth != [] {
      var (username, password) := SplitOnce(auth);
      if password.Some? {
        HalvesValid(username, password.value);
        PartReadBack(also, password.value);
      }
      PartReadBack(also, username);
      SharedParts(auth);
    }
  }

  lemma {:induction false} SharedParts(auth: seq<Byte>)
    ensures
      var (username, password) := SplitOnce(auth);
      SplitOnce(EncodeAuth(auth)) ==
      (Escape(ShouldEscape, username), if password.Some? then Some(Escape(ShouldEscape, password.value)) else None)
  {
    var (username, password) := SplitOnce(auth);
    EscapedBytes(username);
    SplitJoin(Escape(ShouldEscape, username),
              if password.Some? then Some(Escape(ShouldEscape, password.value)) else None);
  }

  /** Each part is decoded to what was escaped, and is empty only if that was. */
  lemma {:induction false} PartReadBack(also: Escapes, part: seq<Byte>)
    requires LeavesEscapes(also) && ValidUtf8(part)
    ensures Decode(Escape(also, Escape(ShouldEscape, part))) == Ok(part)
    ensures Escape(also, Escape(ShouldEscape, part)) == [] <==> part == []
    ensures Escape(ShouldEscape, part) == [] <==> part == []
  {
    EscapeTwice(also, part);
    DecodeEscape(Also(also), part);
  }
}
