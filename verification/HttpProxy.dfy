/** Reading heads and forwarding bodies in the HTTP proxy: app/src/http_proxy.rs. */
module HttpProxy {
  import opened Base
  import opened Streams
  import opened Utf8

  const MAX_HTTP_HEADER_SIZE: nat := 64 * 1024
  const MAX_CHUNK_LINE_SIZE: nat := 8 * 1024
  const HEAD_READ_SIZE: nat := 2048
  const LINE_READ_SIZE: nat := 1024
  const COPY_READ_SIZE: nat := 8 * 1024

  datatype HttpError = UnexpectedEof | LineTooLarge | HeaderTooLarge | InvalidChunkHeader | InvalidChunkSize

  // ================================================================ searching

  /** The pattern stands at `i`. */
  predicate At(s: seq<Byte>, pattern: seq<Byte>, i: nat) {
    i + |pattern| <= |s| && s[i..i + |pattern|] == pattern
  }

  /** The pattern stands at `i` and nowhere before. */
  ghost predicate First(s: seq<Byte>, pattern: seq<Byte>, i: nat) {
    At(s, pattern, i) && forall j: nat | j < i :: !At(s, pattern, j)
  }

  /** `buffer.windows(|pattern|).position(|w| w == pattern)`: the first place where the pattern stands. */
  ghost function Find(s: seq<Byte>, pattern: seq<Byte>): (r: Option<nat>)
    ensures r.Some? ==> r.value + |pattern| <= |s|
  {
    if i: nat :| First(s, pattern, i) then Some(i) else None
  }

  /** A pattern that stands somewhere has a first place. */
  lemma {:induction false} FirstExists(s: seq<Byte>, pattern: seq<Byte>, i: nat)
    requires At(s, pattern, i)
    ensures exists k: nat :: First(s, pattern, k)
  {
    if j: nat :| j < i && At(s, pattern, j) {
      FirstExists(s, pattern, j);
    } else {
      assert First(s, pattern, i);
    }
  }

  lemma {:induction false} FindIs(s: seq<Byte>, pattern: seq<Byte>, i: nat)
    requires First(s, pattern, i)
    ensures Find(s, pattern) == Some(i)
  {
    var r := Find(s, pattern);
    assert First(s, pattern, r.value);
  }

  lemma {:induction false} FindNothing(s: seq<Byte>, pattern: seq<Byte>)
    requires Find(s, pattern) == None
    ensures forall i: nat :: !At(s, pattern, i)
  {
    forall i: nat
      ensures !At(s, pattern, i)
    {
      if At(s, pattern, i) {
        FirstExists(s, pattern, i);
        assert false;
      }
    }
  }

  /** What is found in a prefix is found in the whole; what is found only in the whole ends past the prefix. */
  lemma {:induction false} FindPrefix(s: seq<Byte>, t: seq<Byte>, pattern: seq<Byte>)
    ensures Find(s, pattern).Some? ==> Find(s + t, pattern) == Find(s, pattern)
    ensures Find(s, pattern).None? && Find(s + t, pattern).Some? ==>
              Find(s + t, pattern).value + |pattern| > |s|
  {
    forall i: nat | i + |pattern| <= |s|
      ensures At(s, pattern, i) <==> At(s + t, pattern, i)
    {
      assert (s + t)[i..i + |pattern|] == s[i..i + |pattern|];
    }
    if Find(s, pattern).Some? {
      FindIs(s + t, pattern, Find(s, pattern).value);
    } else {
      FindNothing(s, pattern);
    }
  }

  /** The scan with which `find_crlf` and `find_header_end` look through the buffer. */
  method FindByScan(buffer: seq<Byte>, pattern: seq<Byte>) returns (r: Option<nat>)
    ensures r == Find(buffer, pattern)
  {
    var i := 0;
    while i + |pattern| <= |buffer|
      invariant forall j: nat | j < i :: !At(buffer, pattern, j)
    {
      if buffer[i..i + |pattern|] == pattern {
        FindIs(buffer, pattern, i);
        return Some(i);
      }
      i := i + 1;
    }
    return None;
  }

  // ================================================================ lines

  /** The outcome of a read loop and the state it leaves: buffer, unread stream, cuts to come. */
  datatype Outcome<T> = Outcome(result: Result<T, HttpError>, buffer: seq<Byte>, rest: seq<Byte>, cuts: seq<nat>)

  /** `read_crlf_line`. */
  ghost function LineLoop(buffer: seq<Byte>, rest: seq<Byte>, cuts: seq<nat>): Outcome<seq<Byte>>
    decreases |rest|
  {
    var end := Find(buffer, CRLF);
    if end.Some? then Outcome(Ok(buffer[..end.value + 2]), buffer[end.value + 2..], rest, cuts)
    else if |buffer| > MAX_CHUNK_LINE_SIZE then Outcome(Err(LineTooLarge), buffer, rest, cuts)
    else
      var n := ReadSize(cuts, LINE_READ_SIZE, |rest|);
      if n == 0 then Outcome(Err(UnexpectedEof), buffer, rest, Rest(cuts))
      else LineLoop(buffer + rest[..n], rest[n..], Rest(cuts))
  }

  /** The line is certain to be read: it is in the buffer already, or short enough. */
  ghost predicate LineSafe(buffer: seq<Byte>, rest: seq<Byte>) {
    var end := Find(buffer + rest, CRLF);
    end.Some? && (end.value < 8192 || Find(buffer, CRLF).Some?)
  }

  /**
   * A line that is returned is the one up to the first CRLF, and nothing is lost. Otherwise either more than
   * 8 KiB are buffered without one, or the stream has ended without one.
   */
  ghost predicate LineCorrect(s: seq<Byte>, o: Outcome<seq<Byte>>) {
    match o.result
    case Ok(line) =>
      Find(s, CRLF).Some? && line == s[..Find(s, CRLF).value + 2] && s == line + (o.buffer + o.rest)
    case Err(e) =>
      && s == o.buffer + o.rest
      && if e == LineTooLarge then |o.buffer| > 8192 && Find(o.buffer, CRLF).None?
         else e == UnexpectedEof && o.rest == [] && Find(s, CRLF).None?
  }

  /** However the stream is cut, reading a line is correct, and a safe line is always returned. */
  lemma {:induction false} LineLoopSpec(buffer: seq<Byte>, rest: seq<Byte>, cuts: seq<nat>)
    ensures LineCorrect(buffer + rest, LineLoop(buffer, rest, cuts))
    ensures LineSafe(buffer, rest) ==> LineLoop(buffer, rest, cuts).result.Ok?
    decreases |rest|
  {
    FindPrefix(buffer, rest, CRLF);
    var n := ReadSize(cuts, LINE_READ_SIZE, |rest|);
    if Find(buffer, CRLF).Some? {
      LineInBuffer(buffer, rest, Find(buffer, CRLF).value + 2);
    } else if |buffer| <= MAX_CHUNK_LINE_SIZE && n > 0 {
      var more := buffer + rest[..n];
      assert more + rest[n..] == buffer + rest;
      LineLoopSpec(more, rest[n..], Rest(cuts));
    }
  }

  lemma {:induction false} LineInBuffer(buffer: seq<Byte>, rest: seq<Byte>, k: nat)
    requires k <= |buffer|
    ensures (buffer + rest)[..k] == buffer[..k]
    ensures buffer + rest == buffer[..k] + (buffer[k..] + rest)
  {
  }

  /** The stream comes one byte at a time. */
  ghost predicate Ones(cuts: seq<nat>, rest: seq<Byte>) {
    |cuts| >= |rest| && forall i | 0 <= i < |cuts| :: cuts[i] == 1
  }

  lemma {:induction false} OnesNext(cuts: seq<nat>, rest: seq<Byte>, cap: nat)
    requires Ones(cuts, rest) && cap > 0
    ensures Ones(Rest(cuts), rest[ReadSize(cuts, cap, |rest|)..])
  {
  }

  /** One byte at a time, nothing is read beyond a line. */
  lemma {:induction false} ByteWiseExact(buffer: seq<Byte>, rest: seq<Byte>, ones: seq<nat>)
    requires Find(buffer, CRLF).None? && Ones(ones, rest)
    ensures
      var o := LineLoop(buffer, rest, ones);
      o.result.Ok? ==> o.buffer == [] && Ones(o.cuts, o.rest)
    decreases |rest|
  {
    if |buffer| <= MAX_CHUNK_LINE_SIZE && rest != [] {
      assert ReadSize(ones, LINE_READ_SIZE, |rest|) == 1;
      assert rest[..1] == [rest[0]];
      var more := buffer + rest[..1];
      if Find(more, CRLF).Some? {
        FoundAtEnd(buffer, rest[0]);
      } else {
        ByteWiseExact(more, rest[1..], ones[1..]);
      }
    }
  }

  /** A line break that a byte completes ends with that byte. */
  lemma {:induction false} FoundAtEnd(buffer: seq<Byte>, b: Byte)
    requires Find(buffer, CRLF).None? && Find(buffer + [b], CRLF).Some?
    ensures Find(buffer + [b], CRLF).value + 2 == |buffer| + 1
  {
    var more := buffer + [b];
    var p := Find(more, CRLF).value;
    FindNothing(buffer, CRLF);
    if p + 2 <= |buffer| {
      assert buffer[p..p + 2] == more[p..p + 2];
      assert At(buffer, CRLF, p);
    }
  }

  /** One byte at a time, a line that does not end by the limit is given up. */
  lemma {:induction false} ByteWiseFails(buffer: seq<Byte>, rest: seq<Byte>, ones: seq<nat>)
    requires Find(buffer + rest, CRLF).Some? && Find(buffer, CRLF).None?
    requires Find(buffer + rest, CRLF).value >= MAX_CHUNK_LINE_SIZE
    requires Ones(ones, rest)
    ensures LineLoop(buffer, rest, ones).result == Err(LineTooLarge)
    decreases |rest|
  {
    FindPrefix(buffer, rest, CRLF);
    if |buffer| <= MAX_CHUNK_LINE_SIZE {
      assert rest != [] by {
        assert rest == [] ==> buffer + rest == buffer;
      }
      assert ReadSize(ones, LINE_READ_SIZE, |rest|) == 1;
      assert buffer + rest[..1] + rest[1..] == buffer + rest;
      FindPrefix(buffer + rest[..1], rest[1..], CRLF);
      ByteWiseFails(buffer + rest[..1], rest[1..], ones[1..]);
    }
  }

  /** Reading a line succeeds however the stream is cut exactly when the line is safe. */
  lemma {:induction false} LineSplitIndependentIff(buffer: seq<Byte>, rest: seq<Byte>)
    ensures (forall cuts :: LineLoop(buffer, rest, cuts).result.Ok?) <==> LineSafe(buffer, rest)
  {
    if LineSafe(buffer, rest) {
      forall cuts
        ensures LineLoop(buffer, rest, cuts).result.Ok?
      {
        LineLoopSpec(buffer, rest, cuts);
      }
    } else {
      var ones := seq(|rest|, _ => 1);
      LineLoopSpec(buffer, rest, ones);
      if Find(buffer + rest, CRLF).Some? {
        ByteWiseFails(buffer, rest, ones);
      }
      assert LineLoop(buffer, rest, ones).result.Err?;
    }
  }

  // ================================================================ heads

  const HEAD_END: seq<Byte> := [13, 10, 13, 10]

  /** `read_http_head`: a head, or nothing when the stream ends before one begins. */
  ghost function HeadLoop(buffer: seq<Byte>, rest: seq<Byte>, cuts: seq<nat>): Outcome<Option<seq<Byte>>>
    decreases |rest|
  {
    var end := Find(buffer, HEAD_END);
    if end.Some? then Outcome(Ok(Some(buffer[..end.value])), buffer[end.value + 4..], rest, cuts)
    else
      var n := ReadSize(cuts, HEAD_READ_SIZE, |rest|);
      if n == 0 then
        Outcome(if buffer == [] then Ok(None) else Err(UnexpectedEof), buffer, rest, Rest(cuts))
      else
        var more := buffer + rest[..n];
        if |more| > MAX_HTTP_HEADER_SIZE then Outcome(Err(HeaderTooLarge), more, rest[n..], Rest(cuts))
        else HeadLoop(more, rest[n..], Rest(cuts))
  }

  /**
   * The head is certain to be read: it is in the buffer already, or even the last read - made when all
   * but one byte of the head have arrived - cannot take the buffer over the limit.
   */
  ghost predicate HeadSafe(buffer: seq<Byte>, rest: seq<Byte>) {
    var end := Find(buffer + rest, HEAD_END);
    && end.Some?
    && (Find(buffer, HEAD_END).Some?
        || Min(end.value + 3 + 2048, |buffer + rest|) <= 65536)
  }

  /** A head that is returned is the one up to the first blank line, and nothing is lost. */
  ghost predicate HeadCorrect(s: seq<Byte>, o: Outcome<Option<seq<Byte>>>) {
    match o.result
    case Ok(Some(head)) => Find(s, HEAD_END) == Some(|head|) && s == head + HEAD_END + (o.buffer + o.rest)
    case Ok(None) => s == []
    case Err(e) =>
      && s != [] && s == o.buffer + o.rest
      && if e == HeaderTooLarge then |o.buffer| > 65536
         else e == UnexpectedEof && o.rest == [] && Find(s, HEAD_END).None?
  }

  /** However the stream is cut, reading a head is correct, and a safe head is always returned. */
  lemma {:induction false} HeadLoopSpec(buffer: seq<Byte>, rest: seq<Byte>, cuts: seq<nat>)
    ensures HeadCorrect(buffer + rest, HeadLoop(buffer, rest, cuts))
    ensures HeadSafe(buffer, rest) ==>
              HeadLoop(buffer, rest, cuts).result.Ok? && HeadLoop(buffer, rest, cuts).result.value.Some?
    decreases |rest|
  {
    FindPrefix(buffer, rest, HEAD_END);
    var n := ReadSize(cuts, HEAD_READ_SIZE, |rest|);
    if Find(buffer, HEAD_END).Some? {
      var p := Find(buffer, HEAD_END).value;
      HeadInBuffer(buffer, rest, p);
    } else if n > 0 {
      var more := buffer + rest[..n];
      assert more + rest[n..] == buffer + rest;
      if |more| <= MAX_HTTP_HEADER_SIZE {
        HeadLoopSpec(more, rest[n..], Rest(cuts));
      }
    } else {
      assert buffer + rest == buffer;
    }
  }

  lemma {:induction false} HeadInBuffer(buffer: seq<Byte>, rest: seq<Byte>, p: nat)
    requires p + 4 <= |buffer| && buffer[p..p + 4] == HEAD_END
    ensures buffer + rest == buffer[..p] + HEAD_END + (buffer[p + 4..] + rest)
  {
    assert buffer == buffer[..p] + buffer[p..p + 4] + buffer[p + 4..];
  }

  /** Byte by byte up to the last byte of the head, then as much as fits one read. */
  ghost function WorstCuts(singles: nat): seq<nat> {
    seq(singles, _ => 1) + [HEAD_READ_SIZE]
  }

  lemma {:induction false} WorstCutsFail(buffer: seq<Byte>, rest: seq<Byte>, singles: nat)
    requires Find(buffer + rest, HEAD_END).Some? && Find(buffer, HEAD_END).None?
    requires singles == Find(buffer + rest, HEAD_END).value + 3 - |buffer|
    requires Min(Find(buffer + rest, HEAD_END).value + 3 + HEAD_READ_SIZE, |buffer + rest|) > MAX_HTTP_HEADER_SIZE
    ensures HeadLoop(buffer, rest, WorstCuts(singles)).result == Err(HeaderTooLarge)
    decreases singles
  {
    var cuts := WorstCuts(singles);
    FindPrefix(buffer, rest, HEAD_END);
    if singles == 0 {
      assert ReadSize(cuts, HEAD_READ_SIZE, |rest|) == Min(HEAD_READ_SIZE, |rest|);
    } else {
      assert ReadSize(cuts, HEAD_READ_SIZE, |rest|) == 1;
      var more := buffer + rest[..1];
      assert more + rest[1..] == buffer + rest;
      FindPrefix(more, rest[1..], HEAD_END);
      assert Rest(cuts) == WorstCuts(singles - 1);
      if |more| <= MAX_HTTP_HEADER_SIZE {
        WorstCutsFail(more, rest[1..], singles - 1);
      }
    }
  }

  ghost predicate HeadRead(buffer: seq<Byte>, rest: seq<Byte>, cuts: seq<nat>) {
    var result := HeadLoop(buffer, rest, cuts).result;
    result.Ok? && result.value.Some?
  }

  /** Reading a head succeeds however the stream is cut exactly when the head is safe. */
  lemma {:induction false} HeadSplitIndependentIff(buffer: seq<Byte>, rest: seq<Byte>)
    ensures (forall cuts :: HeadRead(buffer, rest, cuts)) <==> HeadSafe(buffer, rest)
  {
    if HeadSafe(buffer, rest) {
      forall cuts
        ensures HeadRead(buffer, rest, cuts)
      {
        HeadLoopSpec(buffer, rest, cuts);
      }
    } else {
      var end := Find(buffer + rest, HEAD_END);
      FindPrefix(buffer, rest, HEAD_END);
      var cuts := if end.Some? then WorstCuts(end.value + 3 - |buffer|) else [];
      HeadLoopSpec(buffer, rest, cuts);
      if end.Some? {
        WorstCutsFail(buffer, rest, end.value + 3 - |buffer|);
      }
      assert !HeadRead(buffer, rest, cuts);
    }
  }

  // ================================================================ chunked bodies: what the code accepts

  const PLUS: Byte := 43

  /** `split(';').next()`. */
  function BeforeSemicolon(line: seq<Byte>): seq<Byte> {
    if line == [] || line[0] == SEMICOLON then [] else [line[0]] + BeforeSemicolon(line[1..])
  }

  /** Unicode white space that takes one, two or three bytes in UTF-8. */
  predicate IsSpace(b: Byte) {
    9 <= b <= 13 || b == 32
  }

  predicate IsSpace2(a: Byte, b: Byte) {
    a == 0xC2 && (b == 0x85 || b == 0xA0)
  }

  predicate IsSpace3(a: Byte, b: Byte, c: Byte) {
    || (a == 0xE1 && b == 0x9A && c == 0x80)
    || (a == 0xE2 && b == 0x80 && (c <= 0x8A || c == 0xA8 || c == 0xA9 || c == 0xAF) && c >= 0x80)
    || (a == 0xE2 && b == 0x81 && c == 0x9F)
    || (a == 0xE3 && b == 0x80 && c == 0x80)
  }

  /** How many bytes the white space takes with which `s` begins; 0 if it begins with another character. */
  function SpaceAtStart(s: seq<Byte>): (n: nat)
    ensures n <= |s|
  {
    if |s| >= 1 && IsSpace(s[0]) then 1
    else if |s| >= 2 && IsSpace2(s[0], s[1]) then 2
    else if |s| >= 3 && IsSpace3(s[0], s[1], s[2]) then 3
    else 0
  }

  /** The same for the end. */
  function SpaceAtEnd(s: seq<Byte>): (n: nat)
    ensures n <= |s|
  {
    if |s| >= 1 && IsSpace(s[|s| - 1]) then 1
    else if |s| >= 2 && IsSpace2(s[|s| - 2], s[|s| - 1]) then 2
    else if |s| >= 3 && IsSpace3(s[|s| - 3], s[|s| - 2], s[|s| - 1]) then 3
    else 0
  }

  /** `trim`, of the start and of the end of UTF-8. */
  function TrimStart(s: seq<Byte>): seq<Byte> {
    if SpaceAtStart(s) > 0 then TrimStart(s[SpaceAtStart(s)..]) else s
  }

  function TrimEnd(s: seq<Byte>): seq<Byte> {
    if SpaceAtEnd(s) > 0 then TrimEnd(s[..|s| - SpaceAtEnd(s)]) else s
  }

  /** `usize::from_str_radix(text, 16)`: an optional plus sign, at least one digit, no overflow. */
  function ParseHex(text: seq<Byte>): Option<nat> {
    var digits := if |text| > 1 && text[0] == PLUS then text[1..] else text;
    if digits == [] || !HexText(digits) || HexValue(digits) >= USIZE_MODULUS then None
    else Some(HexValue(digits))
  }

  /** A way of reading the size from a chunk line, given without its CRLF. */
  type SizeOf = seq<Byte> -> Result<nat, HttpError>

  /** The way the code does it. */
  function ChunkSize(line: seq<Byte>): Result<nat, HttpError> {
    if !ValidUtf8(line) then Err(InvalidChunkHeader)
    else
      match ParseHex(TrimEnd(TrimStart(BeforeSemicolon(line))))
      case None => Err(InvalidChunkSize)
      case Some(n) => Ok(n)
  }

  // ---------------------------------------------------------------- the chunk lines that have a size

  /** The characters with the property White_Space of Unicode. */
  predicate IsWhite(c: nat) {
    || 0x9 <= c <= 0xD || c == 0x20 || c == 0x85 || c == 0xA0 || c == 0x1680 || 0x2000 <= c <= 0x200A
    || c == 0x2028 || c == 0x2029 || c == 0x202F || c == 0x205F || c == 0x3000
  }

  predicate AllWhite(text: seq<nat>) {
    forall i | 0 <= i < |text| :: IsWhite(text[i])
  }

  /**
   * A size in hexadecimal digits of either case, perhaps after a plus sign, between white space; then nothing
   * or a semicolon and anything.
   */
  datatype SizeText = SizeText(before: seq<nat>, plus: bool, digits: seq<Byte>, after: seq<nat>,
                               comment: Option<seq<Byte>>)
  {
    predicate Good() {
      AllWhite(before) && AllWhite(after) && digits != [] && HexText(digits)
    }

    function Number(): seq<Byte> {
      (if plus then [43] else []) + digits
    }

    function Text(): seq<Byte>
      requires Good()
    {
      EncodeText(before) + Number() + EncodeText(after) + if comment.Some? then [59] + comment.value else []
    }
  }

  /** Such a line has that size, if it is UTF-8 and the size is below 2^64. */
  lemma {:induction false} SizeTextRead(t: SizeText)
    requires t.Good()
    ensures ChunkSize(t.Text()) ==
            if !ValidUtf8(t.Text()) then Err(InvalidChunkHeader)
            else if HexValue(t.digits) >= 0x1_0000_0000_0000_0000 then Err(InvalidChunkSize)
            else Ok(HexValue(t.digits))
  {
    NumberRead(t);
    Trimmed(t.before, t.Number(), t.after, if t.comment.Some? then [59] + t.comment.value else []);
  }

  lemma {:induction false} Trimmed(before: seq<nat>, number: seq<Byte>, after: seq<nat>, tail: seq<Byte>)
    requires AllWhite(before) && AllWhite(after) && number != [] && SEMICOLON !in number
    requires 33 <= number[0] < 0x80 && 33 <= number[|number| - 1] < 0x80 && (tail == [] || tail[0] == SEMICOLON)
    ensures TrimEnd(TrimStart(BeforeSemicolon(EncodeText(before) + number + EncodeText(after) + tail))) == number
  {
    WhiteHasNoSemicolon(before);
    WhiteHasNoSemicolon(after);
    Cut(EncodeText(before) + number + EncodeText(after), tail);
    Rejoined(EncodeText(before), number, EncodeText(after));
    SkipStart(before, number + EncodeText(after));
    SkipEnd(number, after);
  }

  lemma {:induction false} NumberRead(t: SizeText)
    requires t.Good()
    ensures
      var number := t.Number();
      && ParseHex(number) == (if HexValue(t.digits) >= USIZE_MODULUS then None else Some(HexValue(t.digits)))
      && 33 <= number[0] < 0x80 && 33 <= number[|number| - 1] < 0x80 && SEMICOLON !in number
  {
    var number := t.Number();
    assert IsHexDigit(t.digits[0]) && number[|number| - 1] == t.digits[|t.digits| - 1];
    if t.plus {
      assert number[1..] == t.digits;
    } else {
      assert number == t.digits;
    }
    assert forall i | 0 <= i < |t.digits| :: t.digits[i] != 59;
  }

  lemma {:induction false} WhiteScalar(c: nat)
    requires IsWhite(c)
    ensures IsScalar(c) && SEMICOLON !in EncodeScalar(c)
  {
  }

  lemma {:induction false} WhiteHasNoSemicolon(text: seq<nat>)
    requires AllWhite(text)
    ensures SEMICOLON !in EncodeText(text)
  {
    if text != [] {
      WhiteScalar(text[0]);
      WhiteHasNoSemicolon(text[1..]);
    }
  }

  lemma {:induction false} Cut(front: seq<Byte>, tail: seq<Byte>)
    requires SEMICOLON !in front && (tail == [] || tail[0] == SEMICOLON)
    ensures BeforeSemicolon(front + tail) == front
  {
    if front == [] {
      assert front + tail == tail;
    } else {
      assert front[0] in front && (front + tail)[1..] == front[1..] + tail;
      Cut(front[1..], tail);
    }
  }

  lemma {:induction false} SkipStart(text: seq<nat>, s: seq<Byte>)
    requires AllWhite(text) && s != [] && 33 <= s[0] < 0x80
    ensures TrimStart(EncodeText(text) + s) == s
  {
    if text == [] {
      assert EncodeText(text) + s == s;
    } else {
      var rest := EncodeText(text[1..]) + s;
      assert EncodeText(text) + s == EncodeScalar(text[0]) + rest;
      WhiteAtStart(text[0], rest);
      SkipStart(text[1..], s);
    }
  }

  lemma {:induction false} WhiteAtStart(c: nat, rest: seq<Byte>)
    requires IsWhite(c)
    ensures SpaceAtStart(EncodeScalar(c) + rest) == |EncodeScalar(c)|
    ensures (EncodeScalar(c) + rest)[|EncodeScalar(c)|..] == rest
  {
  }

  lemma {:induction false} SkipEnd(s: seq<Byte>, text: seq<nat>)
    requires AllWhite(text) && s != [] && 33 <= s[|s| - 1] < 0x80
    ensures TrimEnd(s + EncodeText(text)) == s
  {
    if text == [] {
      assert s + EncodeText(text) == s;
    } else {
      var init, c := text[..|text| - 1], text[|text| - 1];
      EncodeTextSnoc(init, c);
      assert text == init + [c];
      var front := s + EncodeText(init);
      assert s + EncodeText(text) == front + EncodeScalar(c);
      WhiteAtEnd(front, c);
      SkipEnd(s, init);
    }
  }

  lemma {:induction false} WhiteAtEnd(front: seq<Byte>, c: nat)
    requires IsWhite(c)
    ensures SpaceAtEnd(front + EncodeScalar(c)) == |EncodeScalar(c)|
    ensures (front + EncodeScalar(c))[..|front|] == front
  {
  }

  /** And no other line has a size. */
  lemma {:induction false} SizeRead(line: seq<Byte>) returns (t: SizeText)
    requires ChunkSize(line).Ok?
    ensures t.Good() && line == t.Text() && ChunkSize(line) == Ok(HexValue(t.digits))
  {
    var front := BeforeSemicolon(line);
    var comment := CutOff(line);
    var before, after := Untrimmed(front);
    t := NumberParsed(before, TrimEnd(TrimStart(front)), after, comment);
  }

  lemma {:induction false} Untrimmed(s: seq<Byte>) returns (before: seq<nat>, after: seq<nat>)
    ensures AllWhite(before) && AllWhite(after)
    ensures s == EncodeText(before) + TrimEnd(TrimStart(s)) + EncodeText(after)
  {
    before := StartSkipped(s);
    after := EndSkipped(TrimStart(s));
    Rejoined(EncodeText(before), TrimEnd(TrimStart(s)), EncodeText(after));
  }

  lemma {:induction false} Rejoined(a: seq<Byte>, b: seq<Byte>, c: seq<Byte>)
    ensures a + (b + c) == a + b + c
  {
  }

  lemma {:induction false} NumberParsed(before: seq<nat>, number: seq<Byte>, after: seq<nat>,
                                        comment: Option<seq<Byte>>) returns (t: SizeText)
    requires ParseHex(number).Some? && AllWhite(before) && AllWhite(after)
    ensures t.Good() && t.Number() == number && ParseHex(number) == Some(HexValue(t.digits))
    ensures t.before == before && t.after == after && t.comment == comment
  {
    var plus := |number| > 1 && number[0] == PLUS;
    t := SizeText(before, plus, if plus then number[1..] else number, after, comment);
    assert t.Number() == number;
  }

  lemma {:induction false} CutOff(line: seq<Byte>) returns (comment: Option<seq<Byte>>)
    ensures line == BeforeSemicolon(line) + if comment.Some? then [59] + comment.value else []
  {
    if line == [] {
      comment := None;
    } else if line[0] == SEMICOLON {
      comment := Some(line[1..]);
    } else {
      comment := CutOff(line[1..]);
    }
  }

  /** The character that these bytes of white space encode. */
  lemma {:induction false} WhiteOf(bytes: seq<Byte>) returns (c: nat)
    requires SpaceAtStart(bytes) == |bytes| > 0
    ensures IsWhite(c) && EncodeScalar(c) == bytes
  {
    if |bytes| == 1 {
      c := bytes[0];
    } else if |bytes| == 2 {
      c := bytes[1];
    } else {
      var high: nat, middle: nat, low: nat := bytes[0] - 0xE0, bytes[1] - 0x80, bytes[2] - 0x80;
      c := high * 0x1000 + middle * 0x40 + low;
    }
  }

  lemma {:induction false} StartSkipped(s: seq<Byte>) returns (text: seq<nat>)
    ensures AllWhite(text) && s == EncodeText(text) + TrimStart(s)
  {
    text := [];
    var n := SpaceAtStart(s);
    if n > 0 {
      var c := WhiteOf(s[..n]);
      var rest := StartSkipped(s[n..]);
      text := [c] + rest;
      Rejoined(EncodeScalar(c), EncodeText(rest), TrimStart(s[n..]));
      assert text[1..] == rest && s == s[..n] + s[n..];
    }
  }

  lemma {:induction false} EndSkipped(s: seq<Byte>) returns (text: seq<nat>)
    ensures AllWhite(text) && s == TrimEnd(s) + EncodeText(text)
  {
    text := [];
    var n := SpaceAtEnd(s);
    if n > 0 {
      var front, tail := s[..|s| - n], s[|s| - n..];
      EndIsWhite(s);
      var c := WhiteOf(tail);
      var rest := EndSkipped(front);
      text := rest + [c];
      EncodeTextSnoc(rest, c);
      Rejoined(TrimEnd(front), EncodeText(rest), tail);
      assert s == front + tail;
    }
  }

  lemma {:induction false} EndIsWhite(s: seq<Byte>)
    requires SpaceAtEnd(s) > 0
    ensures SpaceAtStart(s[|s| - SpaceAtEnd(s)..]) == SpaceAtEnd(s)
  {
  }

  /** The first CRLF at or after `pos`. */
  ghost function LineEnd(s: seq<Byte>, pos: nat): (r: Option<nat>)
    requires pos <= |s|
    ensures r.Some? ==> pos <= r.value && r.value + 2 <= |s|
  {
    var end := Find(s[pos..], CRLF);
    if end.Some? then Some(pos + end.value) else None
  }

  /** Where the trailer section that begins at `pos` ends: after the first empty line. */
  ghost function Trailers(s: seq<Byte>, pos: nat): (r: Option<nat>)
    requires pos <= |s|
    ensures r.Some? ==> pos <= r.value <= |s|
    decreases |s| - pos
  {
    var end := LineEnd(s, pos);
    if end.None? then None
    else if end.value == pos then Some(end.value + 2)
    else Trailers(s, end.value + 2)
  }

  /** How many bytes follow a chunk line: the data and two more, computed in usize. */
  function DataLength(size: nat): nat {
    (size + 2) % USIZE_MODULUS
  }

  /** Where the chunked body that begins at `pos` ends, as the code delimits it. */
  ghost function Body(sizeOf: SizeOf, s: seq<Byte>, pos: nat): (r: Option<nat>)
    requires pos <= |s|
    ensures r.Some? ==> pos <= r.value <= |s|
    decreases |s| - pos
  {
    var end := LineEnd(s, pos);
    if end.None? then None
    else
      match sizeOf(s[pos..end.value])
      case Err(_) => None
      case Ok(size) =>
        if size == 0 then Trailers(s, end.value + 2)
        else if end.value + 2 + DataLength(size) > |s| then None
        else Body(sizeOf, s, end.value + 2 + DataLength(size))
  }

  /** The line that begins at `pos` is shorter than 8 KiB. */
  ghost predicate ShortLine(s: seq<Byte>, pos: nat)
    requires pos <= |s|
  {
    LineEnd(s, pos).Some? ==> LineEnd(s, pos).value - pos < 8192
  }

  ghost predicate ShortTrailers(s: seq<Byte>, pos: nat)
    requires pos <= |s|
    decreases |s| - pos
  {
    && ShortLine(s, pos)
    && var end := LineEnd(s, pos);
       end.Some? && end.value != pos ==> ShortTrailers(s, end.value + 2)
  }

  /** Every line of the body that begins at `pos` is short. */
  ghost predicate ShortLines(sizeOf: SizeOf, s: seq<Byte>, pos: nat)
    requires pos <= |s|
    decreases |s| - pos
  {
    && ShortLine(s, pos)
    && var end := LineEnd(s, pos);
       end.Some? ==>
         match sizeOf(s[pos..end.value])
         case Err(_) => true
         case Ok(size) =>
           if size == 0 then ShortTrailers(s, end.value + 2)
           else end.value + 2 + DataLength(size) <= |s| ==> ShortLines(sizeOf, s, end.value + 2 + DataLength(size))
  }

  // ================================================================ the imperative code

  /** A line read from what is left of the stream `s` from `pos` on. */
  lemma {:induction false} NextLineSpec(s: seq<Byte>, pos: nat, buffer: seq<Byte>, rest: seq<Byte>, cuts: seq<nat>)
    requires pos <= |s| && buffer + rest == s[pos..]
    ensures
      var o := LineLoop(buffer, rest, cuts);
      var end := LineEnd(s, pos);
      if o.result.Ok? then
        end.Some? && o.result.value == s[pos..end.value + 2] && o.buffer + o.rest == s[end.value + 2..]
      else
        o.buffer + o.rest == s[pos..] && !(end.Some? && ShortLine(s, pos))
  {
    LineLoopSpec(buffer, rest, cuts);
    if LineLoop(buffer, rest, cuts).result.Ok? {
      var k := LineEnd(s, pos).value + 2;
      assert s[pos..][..k - pos] == s[pos..k] && s[pos..][k - pos..] == s[k..];
    }
  }

  /** A line read byte by byte is short, and nothing beyond it is read. */
  lemma {:induction false} ByteWiseLine(s: seq<Byte>, pos: nat, rest: seq<Byte>, ones: seq<nat>)
    requires pos <= |s| && rest == s[pos..] && Ones(ones, rest)
    ensures
      var o := LineLoop([], rest, ones);
      o.result.Ok? ==> o.buffer == [] && Ones(o.cuts, o.rest) && ShortLine(s, pos)
  {
    assert Find([], CRLF).None?;
    ByteWiseExact([], rest, ones);
    assert [] + rest == rest;
    if !ShortLine(s, pos) {
      ByteWiseFails([], rest, ones);
    }
  }

  class Connection {
    var buffer: seq<Byte>
    const reader: Reader

    constructor (reader: Reader)
      ensures this.reader == reader && buffer == []
    {
      this.reader := reader;
      buffer := [];
    }

    /** All that has not been handed out yet. */
    ghost function Input(): seq<Byte>
      reads this, reader
    {
      buffer + reader.rest
    }

    /** Nothing is buffered and the rest comes one byte at a time. */
    ghost predicate ByteWise()
      reads this, reader
    {
      buffer == [] && Ones(reader.cuts, reader.rest)
    }

    /** `read_crlf_line`. */
    method ReadCrlfLine() returns (r: Result<seq<Byte>, HttpError>)
      modifies this, reader
      ensures Outcome(r, buffer, reader.rest, reader.cuts)
           == LineLoop(old(buffer), old(reader.rest), old(reader.cuts))
    {
      ghost var expected := LineLoop(buffer, reader.rest, reader.cuts);
      while true
        invariant LineLoop(buffer, reader.rest, reader.cuts) == expected
        decreases |reader.rest|
      {
        var position := FindByScan(buffer, CRLF);
        if position.Some? {
          r := Ok(buffer[..position.value + 2]);
          buffer := buffer[position.value + 2..];
          return;
        }
        if |buffer| > MAX_CHUNK_LINE_SIZE {
          return Err(LineTooLarge);
        }
        var chunk := reader.Read(LINE_READ_SIZE);
        if |chunk| == 0 {
          return Err(UnexpectedEof);
        }
        buffer := buffer + chunk;
      }
    }

    /** `read_http_head`. */
    method ReadHttpHead() returns (r: Result<Option<seq<Byte>>, HttpError>)
      modifies this, reader
      ensures Outcome(r, buffer, reader.rest, reader.cuts)
           == HeadLoop(old(buffer), old(reader.rest), old(reader.cuts))
    {
      ghost var expected := HeadLoop(buffer, reader.rest, reader.cuts);
      while true
        invariant HeadLoop(buffer, reader.rest, reader.cuts) == expected
        decreases |reader.rest|
      {
        var end := FindByScan(buffer, HEAD_END);
        if end.Some? {
          r := Ok(Some(buffer[..end.value]));
          buffer := buffer[end.value + 4..];
          return;
        }
        var chunk := reader.Read(HEAD_READ_SIZE);
        if |chunk| == 0 {
          if buffer == [] {
            return Ok(None);
          }
          return Err(UnexpectedEof);
        }
        buffer := buffer + chunk;
        if |buffer| > MAX_HTTP_HEADER_SIZE {
          return Err(HeaderTooLarge);
        }
      }
    }

    /**
     * `transfer_exact_bytes`: forwards that many bytes, or all there are; a stream that ends early is
     * not an error.
     */
    method TransferExactBytes(length: nat) returns (written: seq<Byte>)
      modifies this, reader
      ensures written == old(Input())[..Min(length, |old(Input())|)]
      ensures Input() == old(Input())[Min(length, |old(Input())|)..]
      ensures |written| == length <==> |old(Input())| >= length
      ensures old(ByteWise()) ==> ByteWise()
    {
      ghost var input, ones := Input(), ByteWise();
      var remaining := length;
      var buffered := Min(|buffer|, remaining);
      written := buffer[..buffered];
      buffer := buffer[buffered..];
      remaining := remaining - buffered;
      while remaining > 0
        invariant 0 <= remaining <= length && |written| == length - remaining
        invariant remaining > 0 ==> buffer == []
        invariant input == written + Input()
        invariant ones ==> ByteWise()
      {
        if ones {
          OnesNext(reader.cuts, reader.rest, Min(remaining, COPY_READ_SIZE));
        }
        var piece := reader.Read(Min(remaining, COPY_READ_SIZE));
        if piece == [] {
          break;
        }
        Rejoined(written, piece, Input());
        written := written + piece;
        remaining := remaining - |piece|;
      }
    }

    /** `read_crlf_line` as its callers see it: what is left is the stream `s` from `pos` on. */
    method NextLine(ghost s: seq<Byte>, ghost pos: nat) returns (r: Result<seq<Byte>, HttpError>)
      requires pos <= |s| && Input() == s[pos..]
      modifies this, reader
      ensures r.Ok? ==>
                && LineEnd(s, pos).Some?
                && r.value == s[pos..LineEnd(s, pos).value + 2] && Input() == s[LineEnd(s, pos).value + 2..]
      ensures r.Err? ==> Input() == s[pos..] && !(LineEnd(s, pos).Some? && ShortLine(s, pos))
      ensures r.Ok? && old(ByteWise()) ==> ByteWise() && ShortLine(s, pos)
    {
      NextLineSpec(s, pos, buffer, reader.rest, reader.cuts);
      if ByteWise() {
        ByteWiseLine(s, pos, reader.rest, reader.cuts);
      }
      r := ReadCrlfLine();
    }

    /** The trailer loop of `transfer_chunked_body`. */
    method TransferTrailers(ghost s: seq<Byte>, ghost pos: nat)
      returns (r: Result<(), HttpError>, written: seq<Byte>, ghost end: nat)
      requires pos <= |s| && Input() == s[pos..]
      modifies this, reader
      ensures pos <= end <= |s| && written == s[pos..end] && Input() == s[end..]
      ensures r.Ok? ==> Trailers(s, pos) == Some(end)
      ensures r.Err? ==> !(Trailers(s, pos).Some? && ShortTrailers(s, pos))
      ensures r.Ok? && old(ByteWise()) ==> ShortTrailers(s, pos)
    {
      written := [];
      end := pos;
      while true
        invariant pos <= end <= |s| && written == s[pos..end] && Input() == s[end..]
        invariant Trailers(s, pos) == Trailers(s, end)
        invariant ShortTrailers(s, pos) ==> ShortTrailers(s, end)
        invariant old(ByteWise()) ==> ByteWise() && ShortTrailers(s, pos) == ShortTrailers(s, end)
        decreases |s| - end
      {
        ghost var start := end;
        var trailer := NextLine(s, start);
        if trailer.Err? {
          return Err(trailer.error), written, end;
        }
        end := LineEnd(s, start).value + 2;
        Forwarded(s, pos, start, end);
        EmptyLine(s, start);
        written := written + trailer.value;
        if trailer.value == CRLF {
          return Ok(()), written, end;
        }
      }
    }

    /** The loop of `transfer_chunked_body`, for any way of reading a chunk's size. */
    method TransferChunks(sizeOf: SizeOf, ghost s: seq<Byte>, ghost pos: nat)
      returns (r: Result<(), HttpError>, written: seq<Byte>, ghost end: nat)
      requires pos <= |s| && Input() == s[pos..]
      modifies this, reader
      ensures pos <= end <= |s| && written == s[pos..end] && Input() == s[end..]
      ensures r.Ok? ==> Body(sizeOf, s, pos) == Some(end)
      ensures r.Err? ==> MustAccept(sizeOf, s, pos) == None
      ensures r.Ok? && old(ByteWise()) ==> MustAccept(sizeOf, s, pos) == Some(end)
    {
      ghost var ones := ByteWise();
      written := [];
      end := pos;
      while true
        invariant pos <= end <= |s| && written == s[pos..end] && Input() == s[end..]
        invariant ones ==> ByteWise()
        invariant Keeps(sizeOf, s, pos, end, ones)
        decreases |s| - end
      {
        ghost var start := end;
        var size, line;
        size, line, end := ReadChunkLine(sizeOf, s, start);
        Forwarded(s, pos, start, end);
        written := written + line;
        if size.Err? {
          NoBody(sizeOf, s, start);
          return Err(size.error), written, end;
        }
        ghost var dataStart := end;
        var bytes;
        if size.value == 0 {
          LastKeeps(sizeOf, s, pos, start, ones);
          r, bytes, end := TransferTrailers(s, dataStart);
          Forwarded(s, pos, dataStart, end);
          return r, written + bytes, end;
        }
        bytes, end := TransferData(s, dataStart, DataLength(size.value));
        ChunkKeeps(sizeOf, s, pos, start, size.value, end, ones);
        Forwarded(s, pos, dataStart, end);
        written := written + bytes;
      }
    }

    /** A chunk's line and the size it gives. */
    method ReadChunkLine(sizeOf: SizeOf, ghost s: seq<Byte>, ghost pos: nat)
      returns (size: Result<nat, HttpError>, written: seq<Byte>, ghost end: nat)
      requires pos <= |s| && Input() == s[pos..]
      modifies this, reader
      ensures pos <= end <= |s| && written == s[pos..end] && Input() == s[end..]
      ensures size.Ok? ==> SizeAt(sizeOf, s, pos) == Some(size.value) && end == LineEnd(s, pos).value + 2
      ensures size.Err? ==> SizeAt(sizeOf, s, pos) == None || !ShortLine(s, pos)
      ensures size.Ok? && old(ByteWise()) ==> ByteWise() && ShortLine(s, pos)
    {
      var line := NextLine(s, pos);
      if line.Err? {
        return Err(line.error), [], pos;
      }
      end := LineEnd(s, pos).value + 2;
      var text := line.value[..|line.value| - 2];
      assert text == s[pos..end - 2];
      return sizeOf(text), line.value, end;
    }

    /** `transfer_exact_bytes` as the chunk loop sees it. */
    method TransferData(ghost s: seq<Byte>, ghost pos: nat, length: nat) returns (written: seq<Byte>, ghost end: nat)
      requires pos <= |s| && Input() == s[pos..]
      modifies this, reader
      ensures end == Min(pos + length, |s|) && written == s[pos..end] && Input() == s[end..]
      ensures old(ByteWise()) ==> ByteWise()
    {
      written := TransferExactBytes(length);
      end := Min(pos + length, |s|);
      assert s[pos..][..end - pos] == s[pos..end] && s[pos..][end - pos..] == s[end..];
    }

    /**
     * `transfer_chunked_body`: whatever happens, what was forwarded and what is left make up the input.
     * It succeeds only on a body, forwards exactly that body, and succeeds on every body with short lines,
     * however the stream is cut. On no other body does it succeed for all cuts: byte by byte, it succeeds
     * exactly on those.
     */
    method TransferChunkedBody() returns (r: Result<(), HttpError>, written: seq<Byte>)
      modifies this, reader
      ensures old(Input()) == written + Input()
      ensures r.Ok? ==> Body(ChunkSize, old(Input()), 0) == Some(|written|)
      ensures Body(ChunkSize, old(Input()), 0).Some? && ShortLines(ChunkSize, old(Input()), 0) ==> r.Ok?
      ensures old(ByteWise()) ==>
                (r.Ok? <==> Body(ChunkSize, old(Input()), 0).Some? && ShortLines(ChunkSize, old(Input()), 0))
    {
      ghost var s := Input();
      assert s[0..] == s;
      ghost var end;
      r, written, end := TransferChunks(ChunkSize, s, 0);
      assert s == s[..end] + s[end..];
    }
  }

  /** The body that begins at `pos` ends where the one that begins at `next` does. */
  ghost predicate Leads(sizeOf: SizeOf, s: seq<Byte>, pos: nat, next: nat)
    requires pos <= next <= |s|
  {
    && Body(sizeOf, s, pos) == Body(sizeOf, s, next)
    && (MustAccept(sizeOf, s, pos).Some? ==> MustAccept(sizeOf, s, next).Some?)
  }

  /** A body that is accepted however the stream is cut. */
  ghost function MustAccept(sizeOf: SizeOf, s: seq<Byte>, pos: nat): Option<nat>
    requires pos <= |s|
  {
    if ShortLines(sizeOf, s, pos) then Body(sizeOf, s, pos) else None
  }

  /** What the line at `pos` decides. */
  lemma {:induction false} BodyAtLast(sizeOf: SizeOf, s: seq<Byte>, pos: nat, end: nat)
    requires pos <= |s| && LineEnd(s, pos) == Some(end) && sizeOf(s[pos..end]) == Ok(0)
    ensures Body(sizeOf, s, pos) == Trailers(s, end + 2)
  {
  }

  lemma {:induction false} BodyAtChunk(sizeOf: SizeOf, s: seq<Byte>, pos: nat, end: nat, size: nat, next: nat)
    requires pos <= |s| && LineEnd(s, pos) == Some(end) && sizeOf(s[pos..end]) == Ok(size) && size != 0
    requires next == end + 2 + DataLength(size) <= |s|
    ensures Body(sizeOf, s, pos) == Body(sizeOf, s, next)
  {
  }

  lemma {:induction false} ShortAtLast(sizeOf: SizeOf, s: seq<Byte>, pos: nat, end: nat)
    requires pos <= |s| && LineEnd(s, pos) == Some(end) && sizeOf(s[pos..end]) == Ok(0)
    requires end - pos < MAX_CHUNK_LINE_SIZE
    ensures ShortLines(sizeOf, s, pos) == ShortTrailers(s, end + 2)
  {
  }

  lemma {:induction false} ShortAtChunk(sizeOf: SizeOf, s: seq<Byte>, pos: nat, end: nat, size: nat, next: nat)
    requires pos <= |s| && LineEnd(s, pos) == Some(end) && sizeOf(s[pos..end]) == Ok(size) && size != 0
    requires end - pos < MAX_CHUNK_LINE_SIZE && next == end + 2 + DataLength(size) <= |s|
    ensures ShortLines(sizeOf, s, pos) == ShortLines(sizeOf, s, next)
  {
  }

  /** The size that the line at `pos` gives, if there is such a line and it gives one. */
  ghost function SizeAt(sizeOf: SizeOf, s: seq<Byte>, pos: nat): Option<nat>
    requires pos <= |s|
  {
    var end := LineEnd(s, pos);
    if end.Some? && sizeOf(s[pos..end.value]).Ok? then Some(sizeOf(s[pos..end.value]).value) else None
  }

  /** Without a size, or with a line that is too long, there is nothing to accept. */
  lemma {:induction false} NoBody(sizeOf: SizeOf, s: seq<Byte>, pos: nat)
    requires pos <= |s| && (SizeAt(sizeOf, s, pos) == None || !ShortLine(s, pos))
    ensures MustAccept(sizeOf, s, pos) == None
  {
  }

  /** After the zero size come the trailers. */
  lemma {:induction false} LastChunk(sizeOf: SizeOf, s: seq<Byte>, pos: nat)
    requires pos <= |s| && SizeAt(sizeOf, s, pos) == Some(0)
    ensures
      var next := LineEnd(s, pos).value + 2;
      && Body(sizeOf, s, pos) == Trailers(s, next)
      && (MustAccept(sizeOf, s, pos).Some? ==> ShortTrailers(s, next))
      && (ShortLine(s, pos) && ShortTrailers(s, next) ==> MustAccept(sizeOf, s, pos) == Trailers(s, next))
  {
  }

  /** A chunk leads past its line and data, or to the end of a stream that breaks off before. */
  lemma {:induction false} ChunkLeads(sizeOf: SizeOf, s: seq<Byte>, from: nat, pos: nat, size: nat, next: nat)
    requires from <= pos <= |s| && Leads(sizeOf, s, from, pos) && SizeAt(sizeOf, s, pos) == Some(size) && size != 0
    requires next == Min(LineEnd(s, pos).value + 2 + DataLength(size), |s|)
    ensures Leads(sizeOf, s, from, next)
  {
    if LineEnd(s, pos).value + 2 + DataLength(size) > |s| {
      assert LineEnd(s, |s|) == None;
    }
  }

  /** What the loop keeps; byte by byte, the verdict on the whole body is the verdict on what is left. */
  ghost predicate Keeps(sizeOf: SizeOf, s: seq<Byte>, pos: nat, next: nat, ones: bool)
    requires pos <= next <= |s|
  {
    && Leads(sizeOf, s, pos, next)
    && (ones ==> MustAccept(sizeOf, s, pos) == MustAccept(sizeOf, s, next))
  }

  lemma {:induction false} ChunkKeeps(sizeOf: SizeOf, s: seq<Byte>, from: nat, pos: nat, size: nat, next: nat,
                                      ones: bool)
    requires from <= pos <= |s| && Keeps(sizeOf, s, from, pos, ones)
    requires SizeAt(sizeOf, s, pos) == Some(size) && size != 0 && (ones ==> ShortLine(s, pos))
    requires next == Min(LineEnd(s, pos).value + 2 + DataLength(size), |s|)
    ensures Keeps(sizeOf, s, from, next, ones)
  {
    ChunkLeads(sizeOf, s, from, pos, size, next);
    if ones {
      ShortChunk(sizeOf, s, pos, size, next);
    }
  }

  /** After the last chunk the trailers decide. */
  lemma {:induction false} LastKeeps(sizeOf: SizeOf, s: seq<Byte>, from: nat, pos: nat, ones: bool)
    requires from <= pos <= |s| && Keeps(sizeOf, s, from, pos, ones) && SizeAt(sizeOf, s, pos) == Some(0)
    requires ones ==> ShortLine(s, pos)
    ensures
      var next := LineEnd(s, pos).value + 2;
      && Body(sizeOf, s, from) == Trailers(s, next)
      && (MustAccept(sizeOf, s, from).Some? ==> Trailers(s, next).Some? && ShortTrailers(s, next))
      && (ones && ShortTrailers(s, next) ==> MustAccept(sizeOf, s, from) == Trailers(s, next))
  {
    LastChunk(sizeOf, s, pos);
  }

  /** A chunk with a short line leaves it open whether the body must be accepted. */
  lemma {:induction false} ShortChunk(sizeOf: SizeOf, s: seq<Byte>, pos: nat, size: nat, next: nat)
    requires pos <= |s| && SizeAt(sizeOf, s, pos) == Some(size) && size != 0 && ShortLine(s, pos)
    requires next == Min(LineEnd(s, pos).value + 2 + DataLength(size), |s|)
    ensures MustAccept(sizeOf, s, pos) == MustAccept(sizeOf, s, next)
  {
    if LineEnd(s, pos).value + 2 + DataLength(size) > |s| {
      assert LineEnd(s, |s|) == None;
    } else {
      ShortAtChunk(sizeOf, s, pos, LineEnd(s, pos).value, size, next);
    }
  }

  lemma {:induction false} Forwarded(s: seq<Byte>, a: nat, b: nat, c: nat)
    requires a <= b <= c <= |s|
    ensures s[a..b] + s[b..c] == s[a..c]
  {
  }

  lemma {:induction false} EmptyLine(s: seq<Byte>, pos: nat)
    requires pos <= |s| && LineEnd(s, pos).Some?
    ensures s[pos..LineEnd(s, pos).value + 2] == CRLF <==> LineEnd(s, pos).value == pos
  {
  }
}
