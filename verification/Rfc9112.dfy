/** The chunked transfer coding as section 7.1 of RFC 9112 defines it. */
module Rfc9112 {
  import opened Base

  const QUOTE: Byte := 34
  const BACKSLASH: Byte := 92
  const COLON: Byte := 58
  const EQUALS: Byte := 61

  // ================================================================ bytes

  predicate IsBlank(b: Byte) {
    b == 32 || b == 9
  }

  /** tchar of section 5.6.2 of RFC 9110: letters, digits and ! # $ % & ' * + - . ^ _ ` | ~ */
  predicate IsTokenByte(b: Byte) {
    || 48 <= b <= 57 || 65 <= b <= 90 || 94 <= b <= 122
    || b == 33 || 35 <= b <= 39 || b == 42 || b == 43 || b == 45 || b == 46 || b == 124 || b == 126
  }

  predicate IsObsText(b: Byte) {
    b >= 0x80
  }

  /** qdtext of section 5.6.4 of RFC 9110. */
  predicate IsQuotedText(b: Byte) {
    IsBlank(b) || b == 33 || 35 <= b <= 91 || 93 <= b <= 126 || IsObsText(b)
  }

  /** field-vchar of section 5.5 of RFC 9110. */
  predicate IsVisible(b: Byte) {
    33 <= b <= 126 || IsObsText(b)
  }

  predicate Blanks(s: seq<Byte>) {
    forall i | 0 <= i < |s| :: IsBlank(s[i])
  }

  predicate Token(s: seq<Byte>) {
    s != [] && forall i | 0 <= i < |s| :: IsTokenByte(s[i])
  }

  predicate NoLineBreak(s: seq<Byte>) {
    forall i | 0 <= i < |s| :: s[i] != CR && s[i] != LF
  }

  // ================================================================ chunk extensions

  /** qdtext or quoted-pair. */
  datatype QuotedPart = Plain(b: Byte) | Escaped(b: Byte)

  datatype ExtValue = TokenValue(token: seq<Byte>) | QuotedValue(parts: seq<QuotedPart>)

  /** BWS "=" BWS chunk-ext-val. */
  datatype Assignment = Assignment(before: seq<Byte>, after: seq<Byte>, value: ExtValue)

  /** BWS ";" BWS chunk-ext-name, with or without a value. */
  datatype Extension = Extension(before: seq<Byte>, after: seq<Byte>, name: seq<Byte>, value: Option<Assignment>)

  predicate GoodPart(p: QuotedPart) {
    match p
    case Plain(b) => IsQuotedText(b)
    case Escaped(b) => IsBlank(b) || IsVisible(b)
  }

  predicate GoodValue(v: ExtValue) {
    match v
    case TokenValue(token) => Token(token)
    case QuotedValue(parts) => forall i | 0 <= i < |parts| :: GoodPart(parts[i])
  }

  predicate GoodExtension(e: Extension) {
    && Blanks(e.before) && Blanks(e.after) && Token(e.name)
    && (e.value.Some? ==> Blanks(e.value.value.before) && Blanks(e.value.value.after) && GoodValue(e.value.value.value))
  }

  function RenderParts(parts: seq<QuotedPart>): seq<Byte> {
    if parts == [] then []
    else
      var p := parts[|parts| - 1];
      RenderParts(parts[..|parts| - 1]) + if p.Plain? then [p.b] else [BACKSLASH, p.b]
  }

  function RenderValue(v: ExtValue): seq<Byte> {
    match v
    case TokenValue(token) => token
    case QuotedValue(parts) => [QUOTE] + RenderParts(parts) + [QUOTE]
  }

  function RenderExtension(e: Extension): seq<Byte> {
    e.before + ([SEMICOLON] + e.after + e.name
    + if e.value.None? then []
      else e.value.value.before + [EQUALS] + e.value.value.after + RenderValue(e.value.value.value))
  }

  function RenderExtensions(es: seq<Extension>): seq<Byte> {
    if es == [] then [] else RenderExtension(es[0]) + RenderExtensions(es[1..])
  }

  predicate GoodExtensions(es: seq<Extension>) {
    forall i | 0 <= i < |es| :: GoodExtension(es[i])
  }

  /** chunk-ext. */
  ghost predicate ChunkExt(text: seq<Byte>) {
    exists es :: GoodExtensions(es) && RenderExtensions(es) == text
  }

  lemma {:induction false} PartsNoBreak(parts: seq<QuotedPart>)
    requires forall i | 0 <= i < |parts| :: GoodPart(parts[i])
    ensures NoLineBreak(RenderParts(parts))
  {
    if parts != [] {
      PartsNoBreak(parts[..|parts| - 1]);
      assert GoodPart(parts[|parts| - 1]);
    }
  }

  lemma {:induction false} ExtensionNoBreak(e: Extension)
    requires GoodExtension(e)
    ensures NoLineBreak(RenderExtension(e))
  {
    if e.value.Some? && e.value.value.value.QuotedValue? {
      PartsNoBreak(e.value.value.value.parts);
    }
  }

  /** Extensions hold no line break and start with a semicolon, after blanks at most. */
  lemma {:induction false} ExtensionsText(es: seq<Extension>)
    requires GoodExtensions(es)
    ensures NoLineBreak(RenderExtensions(es))
    ensures es != [] ==>
              var blanks := |es[0].before|;
              && blanks < |RenderExtensions(es)| && RenderExtensions(es)[blanks] == SEMICOLON
              && Blanks(RenderExtensions(es)[..blanks])
  {
    if es != [] {
      ExtensionsText(es[1..]);
      ExtensionNoBreak(es[0]);
      var text := RenderExtensions(es);
      assert text[..|es[0].before|] == es[0].before;
    }
  }

  // ================================================================ chunk heads and field lines

  /** The longest hexadecimal prefix. */
  function HexPrefix(s: seq<Byte>): (n: nat)
    ensures n <= |s| && HexText(s[..n]) && (n < |s| ==> !IsHexDigit(s[n]))
  {
    if s == [] || !IsHexDigit(s[0]) then 0
    else
      var n := 1 + HexPrefix(s[1..]);
      assert forall i | 1 <= i < n :: s[i] == s[1..][..n - 1][i - 1];
      n
  }

  /** chunk-size with chunk-ext: the size that a line gives. */
  ghost function ChunkHead(text: seq<Byte>): Option<nat> {
    var n := HexPrefix(text);
    if n > 0 && ChunkExt(text[n..]) then Some(HexValue(text[..n])) else None
  }

  /** The prefix is the size: digits followed by extensions give the value of the digits. */
  lemma {:induction false} ChunkHeadIs(size: seq<Byte>, es: seq<Extension>)
    requires size != [] && HexText(size) && GoodExtensions(es)
    ensures ChunkHead(size + RenderExtensions(es)) == Some(HexValue(size))
  {
    var ext := RenderExtensions(es);
    var text := size + ext;
    var n := HexPrefix(text);
    assert text[..|size|] == size && text[|size|..] == ext;
    ExtensionsText(es);
    assert ext != [] ==> !IsHexDigit(ext[0]) by {
      assert es != [] && |es[0].before| > 0 ==> ext[0] == ext[..|es[0].before|][0];
    }
    assert n >= |size| by {
      assert forall i | 0 <= i < |size| :: text[i] == size[i];
    }
    assert n <= |size| by {
      assert forall i | 0 <= i < n :: text[i] == text[..n][i];
    }
  }

  /** field-value: nothing, or visible bytes with blanks between them. */
  predicate FieldValue(v: seq<Byte>) {
    v != [] ==>
      && IsVisible(v[0]) && IsVisible(v[|v| - 1])
      && forall i | 0 <= i < |v| :: IsBlank(v[i]) || IsVisible(v[i])
  }

  /** field-name ":" OWS field-value OWS. */
  predicate GoodField(name: seq<Byte>, before: seq<Byte>, value: seq<Byte>, after: seq<Byte>) {
    Token(name) && Blanks(before) && FieldValue(value) && Blanks(after)
  }

  /** field-line. */
  ghost predicate FieldLine(text: seq<Byte>) {
    exists name, before, value, after ::
      GoodField(name, before, value, after) && text == name + [COLON] + before + value + after
  }

  lemma {:induction false} FieldIsLine(text: seq<Byte>)
    requires FieldLine(text)
    ensures text != [] && NoLineBreak(text)
  {
  }

  // ================================================================ bodies

  /** A chunked body: chunks with data, then a last chunk of size zero and the trailer fields. */
  datatype ChunkedBody =
    | Chunk(head: seq<Byte>, data: seq<Byte>, next: ChunkedBody)
    | Last(head: seq<Byte>, trailers: seq<seq<Byte>>)

  /** A grammar of chunked bodies: the sizes of the heads it allows, and the trailer lines it allows. */
  datatype Grammar = Grammar(heads: seq<Byte> -> Option<nat>, fields: seq<Byte> -> bool)

  ghost function Rfc(): Grammar {
    Grammar(ChunkHead, FieldLine)
  }

  predicate GoodTrailers(g: Grammar, trailers: seq<seq<Byte>>) {
    forall i | 0 <= i < |trailers| :: g.fields(trailers[i])
  }

  predicate WellFormed(g: Grammar, b: ChunkedBody) {
    match b
    case Chunk(head, data, next) => g.heads(head) == Some(|data|) && data != [] && WellFormed(g, next)
    case Last(head, trailers) => g.heads(head) == Some(0) && GoodTrailers(g, trailers)
  }

  function RenderTrailers(trailers: seq<seq<Byte>>): seq<Byte> {
    if trailers == [] then CRLF else trailers[0] + CRLF + RenderTrailers(trailers[1..])
  }

  function Render(b: ChunkedBody): seq<Byte> {
    match b
    case Chunk(head, data, next) => head + CRLF + (data + CRLF + Render(next))
    case Last(head, trailers) => head + CRLF + RenderTrailers(trailers)
  }
}
