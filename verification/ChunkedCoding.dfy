/** How app/src/http_proxy.rs delimits chunked bodies, compared with grammars of them. */
module ChunkedCoding {
  import opened Base
  import opened HttpProxy
  import opened Rfc9112
  import opened Utf8

  // ================================================================ parts of a stream

  /** `part` stands in `s` at `pos`. */
  predicate Stands(s: seq<Byte>, pos: nat, part: seq<Byte>) {
    pos + |part| <= |s| && s[pos..pos + |part|] == part
  }

  lemma {:induction false} StandsSplit(s: seq<Byte>, pos: nat, a: seq<Byte>, b: seq<Byte>)
    ensures Stands(s, pos, a + b) <==> Stands(s, pos, a) && Stands(s, pos + |a|, b)
  {
    if pos + |a| + |b| <= |s| {
      var whole := s[pos..pos + |a| + |b|];
      assert whole[..|a|] == s[pos..pos + |a|];
      assert whole[|a|..] == s[pos + |a|..pos + |a| + |b|];
      assert (a + b)[..|a|] == a && (a + b)[|a|..] == b;
      assert whole == whole[..|a|] + whole[|a|..];
    }
  }

  /** A rendered chunk stands where its parts do. */
  lemma {:induction false} ChunkStands(s: seq<Byte>, pos: nat, head: seq<Byte>, data: seq<Byte>, next: ChunkedBody)
    ensures |Render(Chunk(head, data, next))| == |head| + 2 + |data| + 2 + |Render(next)|
    ensures Stands(s, pos, Render(Chunk(head, data, next))) <==>
            && Stands(s, pos, head + CRLF)
            && Stands(s, pos + |head| + 2, data)
            && Stands(s, pos + |head| + 2 + |data|, CRLF)
            && Stands(s, pos + |head| + 2 + |data| + 2, Render(next))
  {
    var rest := Render(next);
    assert Render(Chunk(head, data, next)) == head + CRLF + (data + CRLF + rest);
    StandsSplit(s, pos, head + CRLF, data + CRLF + rest);
    DataStands(s, pos + |head| + 2, data, rest);
  }

  lemma {:induction false} DataStands(s: seq<Byte>, pos: nat, data: seq<Byte>, rest: seq<Byte>)
    ensures Stands(s, pos, data + CRLF + rest) <==>
            Stands(s, pos, data) && Stands(s, pos + |data|, CRLF) && Stands(s, pos + |data| + 2, rest)
  {
    StandsSplit(s, pos, data + CRLF, rest);
    StandsSplit(s, pos, data, CRLF);
  }

  // ================================================================ lines

  /** A text without line breaks and a CRLF is a line, and the text is what comes before its end. */
  lemma {:induction false} LineStands(s: seq<Byte>, pos: nat, text: seq<Byte>)
    requires Stands(s, pos, text + CRLF) && NoLineBreak(text)
    ensures LineEnd(s, pos) == Some(pos + |text|)
  {
    StandsSplit(s, pos, text, CRLF);
    var tail := s[pos..];
    assert tail[..|text|] == text;
    assert tail[|text|..|text| + 2] == CRLF;
    forall j: nat | j < |text|
      ensures !At(tail, CRLF, j)
    {
      assert tail[j] == text[j] != CR;
      assert j + 2 <= |tail| ==> tail[j..j + 2][0] == tail[j];
    }
    FindIs(tail, CRLF, |text|);
  }

  /** What `LineEnd` finds stands there. */
  lemma {:induction false} LineEndStands(s: seq<Byte>, pos: nat)
    requires pos <= |s| && LineEnd(s, pos).Some?
    ensures Stands(s, pos, s[pos..LineEnd(s, pos).value] + CRLF)
  {
    var end := LineEnd(s, pos).value;
    assert At(s[pos..], CRLF, end - pos);
    assert s[pos..][end - pos..end - pos + 2] == s[end..end + 2];
    StandsSplit(s, pos, s[pos..end], CRLF);
  }

  /** The code reads the size of a chunk head of RFC 9112 exactly when the head is UTF-8 and the size fits usize. */
  lemma {:induction false} SizeReadIff(text: seq<Byte>)
    requires ChunkHead(text).Some?
    ensures NoLineBreak(text)
    ensures ChunkSize(text) ==
            if !ValidUtf8(text) then Err(InvalidChunkHeader)
            else if ChunkHead(text).value >= USIZE_MODULUS then Err(InvalidChunkSize)
            else Ok(ChunkHead(text).value)
  {
    var n := HexPrefix(text);
    var size, ext := text[..n], text[n..];
    assert text == size + ext;
    var es: seq<Extension> :| GoodExtensions(es) && RenderExtensions(es) == ext;
    ExtensionsText(es);
    NoBreaks(size, ext);
    HeadSize(size, ext, if es == [] then None else Some(|es[0].before|));
  }

  lemma {:induction false} HeadSize(size: seq<Byte>, ext: seq<Byte>, blanks: Option<nat>)
    requires size != [] && HexText(size)
    requires if blanks.None? then ext == []
             else blanks.value < |ext| && ext[blanks.value] == SEMICOLON && Blanks(ext[..blanks.value])
    ensures ChunkSize(size + ext) ==
            if !ValidUtf8(size + ext) then Err(InvalidChunkHeader)
            else if HexValue(size) >= USIZE_MODULUS then Err(InvalidChunkSize)
            else Ok(HexValue(size))
  {
    var k := if blanks.None? then 0 else blanks.value;
    var t := SizeText([], false, size, ext[..k], if blanks.None? then None else Some(ext[k + 1..]));
    BlanksEncoded(ext[..k]);
    assert t.Text() == size + ext;
    SizeTextRead(t);
  }

  lemma {:induction false} BlanksEncoded(blanks: seq<Byte>)
    requires Blanks(blanks)
    ensures AllWhite(blanks) && EncodeText(blanks) == blanks
  {
    if blanks != [] {
      BlanksEncoded(blanks[1..]);
      assert blanks == [blanks[0]] + blanks[1..];
    }
  }

  lemma {:induction false} NoBreaks(size: seq<Byte>, ext: seq<Byte>)
    requires HexText(size) && NoLineBreak(ext)
    ensures NoLineBreak(size + ext)
  {
  }

  /** A reader of sizes that understands a grammar, whose trailer lines are lines. */
  ghost predicate Understands(sizeOf: SizeOf, g: Grammar) {
    && (forall text {:trigger g.heads(text)} :: g.heads(text).Some? ==>
          NoLineBreak(text) && sizeOf(text) == Ok(g.heads(text).value) && g.heads(text).value + 2 < USIZE_MODULUS)
    && FieldsAreLines(g)
  }

  ghost predicate FieldsAreLines(g: Grammar) {
    forall text {:trigger g.fields(text)} :: g.fields(text) ==> text != [] && NoLineBreak(text)
  }

  // ================================================================ strictness

  ghost predicate StrictTrailers(g: Grammar, s: seq<Byte>, pos: nat)
    requires pos <= |s|
    decreases |s| - pos
  {
    var end := LineEnd(s, pos);
    end.Some? && end.value != pos ==> g.fields(s[pos..end.value]) && StrictTrailers(g, s, end.value + 2)
  }

  /** What the code does not check of the body that begins at `pos`. */
  ghost predicate Strict(g: Grammar, s: seq<Byte>, pos: nat)
    requires pos <= |s|
    decreases |s| - pos
  {
    var end := LineEnd(s, pos);
    end.Some? ==>
      var size := g.heads(s[pos..end.value]);
      var data := end.value + 2;
      && size.Some?
      && if size.value == 0 then StrictTrailers(g, s, data)
         else Stands(s, data + size.value, CRLF) && Strict(g, s, data + size.value + 2)
  }

  /** Where the code ends the body that begins at `pos`, and whether the stream is strict up to there. */
  datatype Verdict = Verdict(end: Option<nat>, strict: bool)

  ghost function Judge(sizeOf: SizeOf, g: Grammar, s: seq<Byte>, pos: nat): Verdict
    requires pos <= |s|
  {
    Verdict(Body(sizeOf, s, pos), Strict(g, s, pos))
  }

  lemma {:induction false} StrictAtLast(g: Grammar, s: seq<Byte>, pos: nat, end: nat)
    requires pos <= |s| && LineEnd(s, pos) == Some(end) && g.heads(s[pos..end]) == Some(0)
    ensures Strict(g, s, pos) == StrictTrailers(g, s, end + 2)
  {
  }

  lemma {:induction false} StrictAtChunk(g: Grammar, s: seq<Byte>, pos: nat, end: nat, size: nat, next: nat)
    requires pos <= |s| && LineEnd(s, pos) == Some(end) && g.heads(s[pos..end]) == Some(size) && size != 0
    requires next == end + 2 + size + 2
    ensures Strict(g, s, pos) ==> Stands(s, end + 2 + size, CRLF)
    ensures Stands(s, end + 2 + size, CRLF) ==> Strict(g, s, pos) == Strict(g, s, next)
  {
  }

  // ================================================================ from the grammar to the code

  lemma {:induction false} TrailersAccepted(g: Grammar, s: seq<Byte>, pos: nat, trailers: seq<seq<Byte>>)
    requires FieldsAreLines(g) && Stands(s, pos, RenderTrailers(trailers)) && GoodTrailers(g, trailers)
    ensures Trailers(s, pos) == Some(pos + |RenderTrailers(trailers)|)
    ensures StrictTrailers(g, s, pos)
    decreases |trailers|
  {
    if trailers == [] {
      assert [] + CRLF == CRLF;
      LineStands(s, pos, []);
      assert s[pos..pos] == [];
    } else {
      var first := trailers[0];
      StandsSplit(s, pos, first + CRLF, RenderTrailers(trailers[1..]));
      StandsSplit(s, pos, first, CRLF);
      LineStands(s, pos, first);
      TrailersAccepted(g, s, pos + |first| + 2, trailers[1..]);
    }
  }

  /** Every well-formed chunked body is delimited exactly, whatever comes before and after it. */
  lemma {:induction false} BodyAccepted(sizeOf: SizeOf, g: Grammar, s: seq<Byte>, pos: nat, b: ChunkedBody)
    requires Understands(sizeOf, g) && WellFormed(g, b) && Stands(s, pos, Render(b))
    ensures Judge(sizeOf, g, s, pos) == Verdict(Some(pos + |Render(b)|), true)
    decreases b
  {
    match b {
      case Last(head, trailers) =>
        LastAccepted(sizeOf, g, s, pos, head, trailers);
      case Chunk(head, data, next) =>
        var at := pos + |head| + 2 + |data| + 2;
        ChunkAccepted(sizeOf, g, s, pos, head, data, next, at);
        BodyAccepted(sizeOf, g, s, at, next);
    }
  }

  lemma {:induction false} LastAccepted(sizeOf: SizeOf, g: Grammar, s: seq<Byte>, pos: nat,
                                        head: seq<Byte>, trailers: seq<seq<Byte>>)
    requires Understands(sizeOf, g) && WellFormed(g, Last(head, trailers))
    requires Stands(s, pos, Render(Last(head, trailers)))
    ensures Judge(sizeOf, g, s, pos) == Verdict(Some(pos + |Render(Last(head, trailers))|), true)
  {
    assert Render(Last(head, trailers)) == head + CRLF + RenderTrailers(trailers);
    StandsSplit(s, pos, head + CRLF, RenderTrailers(trailers));
    TrailersAccepted(g, s, pos + |head| + 2, trailers);
    LastLine(sizeOf, g, s, pos, head);
  }

  lemma {:induction false} ChunkAccepted(sizeOf: SizeOf, g: Grammar, s: seq<Byte>, pos: nat,
                      head: seq<Byte>, data: seq<Byte>, next: ChunkedBody, at: nat)
    requires Understands(sizeOf, g) && g.heads(head) == Some(|data|) && data != []
    requires Stands(s, pos, Render(Chunk(head, data, next))) && at == pos + |head| + 2 + |data| + 2
    ensures Stands(s, at, Render(next)) && at + |Render(next)| == pos + |Render(Chunk(head, data, next))|
    ensures Judge(sizeOf, g, s, pos) == Judge(sizeOf, g, s, at)
  {
    ChunkStands(s, pos, head, data, next);
    ChunkLine(sizeOf, g, s, pos, head, |data|, at);
  }

  /** What a head of the grammar decides, for the code and for strictness. */
  lemma {:induction false} LastLine(sizeOf: SizeOf, g: Grammar, s: seq<Byte>, pos: nat, head: seq<Byte>)
    requires Understands(sizeOf, g) && Stands(s, pos, head + CRLF) && g.heads(head) == Some(0)
    ensures Body(sizeOf, s, pos) == Trailers(s, pos + |head| + 2)
    ensures Strict(g, s, pos) == StrictTrailers(g, s, pos + |head| + 2)
  {
    SizeLine(sizeOf, g, s, pos, head, 0);
    StrictAtLast(g, s, pos, pos + |head|);
    BodyAtLast(sizeOf, s, pos, pos + |head|);
  }

  lemma {:induction false} ChunkLine(sizeOf: SizeOf, g: Grammar, s: seq<Byte>, pos: nat,
                                     head: seq<Byte>, size: nat, next: nat)
    requires Understands(sizeOf, g) && Stands(s, pos, head + CRLF) && g.heads(head) == Some(size) && size != 0
    requires Stands(s, pos + |head| + 2 + size, CRLF) && next == pos + |head| + 2 + size + 2
    ensures Judge(sizeOf, g, s, pos) == Judge(sizeOf, g, s, next)
  {
    SizeLine(sizeOf, g, s, pos, head, size);
    StrictAtChunk(g, s, pos, pos + |head|, size, next);
    BodyAtChunk(sizeOf, s, pos, pos + |head|, size, next);
  }

  lemma {:induction false} SizeLine(sizeOf: SizeOf, g: Grammar, s: seq<Byte>, pos: nat, head: seq<Byte>, size: nat)
    requires Understands(sizeOf, g) && Stands(s, pos, head + CRLF) && g.heads(head) == Some(size)
    ensures LineEnd(s, pos) == Some(pos + |head|) && s[pos..pos + |head|] == head
    ensures sizeOf(head) == Ok(size) && DataLength(size) == size + 2
  {
    LineStands(s, pos, head);
    StandsSplit(s, pos, head, CRLF);
  }

  /** All lines of a body are short. */
  predicate ShortHeads(b: ChunkedBody) {
    && |b.head| < 8192
    && match b
       case Chunk(_, _, next) => ShortHeads(next)
       case Last(_, trailers) => forall i | 0 <= i < |trailers| :: |trailers[i]| < 8192
  }

  lemma {:induction false} TrailersShort(g: Grammar, s: seq<Byte>, pos: nat, trailers: seq<seq<Byte>>)
    requires FieldsAreLines(g) && Stands(s, pos, RenderTrailers(trailers)) && GoodTrailers(g, trailers)
    requires forall i | 0 <= i < |trailers| :: |trailers[i]| < MAX_CHUNK_LINE_SIZE
    ensures ShortTrailers(s, pos)
    decreases |trailers|
  {
    if trailers == [] {
      assert [] + CRLF == CRLF;
      LineStands(s, pos, []);
    } else {
      var first := trailers[0];
      StandsSplit(s, pos, first + CRLF, RenderTrailers(trailers[1..]));
      LineStands(s, pos, first);
      TrailersShort(g, s, pos + |first| + 2, trailers[1..]);
    }
  }

  lemma {:induction false} BodyShort(sizeOf: SizeOf, g: Grammar, s: seq<Byte>, pos: nat, b: ChunkedBody)
    requires Understands(sizeOf, g) && WellFormed(g, b) && Stands(s, pos, Render(b)) && ShortHeads(b)
    ensures ShortLines(sizeOf, s, pos) == true
    decreases b
  {
    match b {
      case Last(head, trailers) =>
        StandsSplit(s, pos, head + CRLF, RenderTrailers(trailers));
        TrailersShort(g, s, pos + |head| + 2, trailers);
        SizeLine(sizeOf, g, s, pos, head, 0);
        ShortAtLast(sizeOf, s, pos, pos + |head|);
      case Chunk(head, data, next) =>
        ChunkStands(s, pos, head, data, next);
        SizeLine(sizeOf, g, s, pos, head, |data|);
        var at := pos + |head| + 2 + |data| + 2;
        ShortAtChunk(sizeOf, s, pos, pos + |head|, |data|, at);
        BodyShort(sizeOf, g, s, at, next);
    }
  }

  // ================================================================ from the code to the grammar

  lemma {:induction false} TrailersParsed(g: Grammar, s: seq<Byte>, pos: nat) returns (trailers: seq<seq<Byte>>)
    requires pos <= |s| && Trailers(s, pos).Some? && StrictTrailers(g, s, pos)
    ensures GoodTrailers(g, trailers)
    ensures Stands(s, pos, RenderTrailers(trailers)) && Trailers(s, pos) == Some(pos + |RenderTrailers(trailers)|)
    decreases |s| - pos
  {
    var end := LineEnd(s, pos).value;
    var text := s[pos..end];
    LineEndStands(s, pos);
    if end == pos {
      trailers := [];
      assert text + CRLF == CRLF;
    } else {
      var rest := TrailersParsed(g, s, end + 2);
      trailers := [text] + rest;
      assert trailers[1..] == rest;
      StandsSplit(s, pos, text + CRLF, RenderTrailers(rest));
    }
  }

  lemma {:induction false} BodyParsed(sizeOf: SizeOf, g: Grammar, s: seq<Byte>, pos: nat) returns (b: ChunkedBody)
    requires Understands(sizeOf, g)
    requires pos <= |s|
    requires Judge(sizeOf, g, s, pos).end.Some? && Judge(sizeOf, g, s, pos).strict
    ensures WellFormed(g, b)
    ensures Stands(s, pos, Render(b)) && Judge(sizeOf, g, s, pos).end == Some(pos + |Render(b)|)
    decreases |s| - pos
  {
    var end, size := HeadParsed(sizeOf, g, s, pos);
    var head := s[pos..end];
    if size == 0 {
      LastLine(sizeOf, g, s, pos, head);
      b := LastParsed(g, s, pos, head);
    } else {
      var at := end + 2 + size + 2;
      ChunkStart(sizeOf, g, s, pos, end, size, at);
      var next := BodyParsed(sizeOf, g, s, at);
      b := ChunkParsed(g, s, pos, end, size, at, next);
    }
  }

  lemma {:induction false} HeadParsed(sizeOf: SizeOf, g: Grammar, s: seq<Byte>, pos: nat) returns (end: nat, size: nat)
    requires pos <= |s| && Body(sizeOf, s, pos).Some? && Strict(g, s, pos)
    ensures LineEnd(s, pos) == Some(end) && g.heads(s[pos..end]) == Some(size) && Stands(s, pos, s[pos..end] + CRLF)
  {
    end := LineEnd(s, pos).value;
    size := g.heads(s[pos..end]).value;
    LineEndStands(s, pos);
  }

  lemma {:induction false} ChunkStart(sizeOf: SizeOf, g: Grammar, s: seq<Byte>, pos: nat, end: nat, size: nat, at: nat)
    requires Understands(sizeOf, g) && pos <= |s| && LineEnd(s, pos) == Some(end) && Strict(g, s, pos)
    requires g.heads(s[pos..end]) == Some(size) && size != 0 && at == end + 2 + size + 2
    ensures Stands(s, end + 2 + size, CRLF) && Judge(sizeOf, g, s, pos) == Judge(sizeOf, g, s, at)
  {
    LineEndStands(s, pos);
    StrictAtChunk(g, s, pos, end, size, at);
    ChunkLine(sizeOf, g, s, pos, s[pos..end], size, at);
  }

  lemma {:induction false} LastParsed(g: Grammar, s: seq<Byte>, pos: nat, head: seq<Byte>) returns (b: ChunkedBody)
    requires g.heads(head) == Some(0) && Stands(s, pos, head + CRLF)
    requires Trailers(s, pos + |head| + 2).Some? && StrictTrailers(g, s, pos + |head| + 2)
    ensures WellFormed(g, b) && Stands(s, pos, Render(b))
    ensures Trailers(s, pos + |head| + 2) == Some(pos + |Render(b)|)
  {
    var trailers := TrailersParsed(g, s, pos + |head| + 2);
    b := Last(head, trailers);
    StandsSplit(s, pos, head + CRLF, RenderTrailers(trailers));
  }

  lemma {:induction false} ChunkParsed(g: Grammar, s: seq<Byte>, pos: nat, end: nat, size: nat, at: nat,
                                       next: ChunkedBody)
    returns (b: ChunkedBody)
    requires pos <= end <= |s| && g.heads(s[pos..end]) == Some(size) && size != 0 && WellFormed(g, next)
    requires Stands(s, pos, s[pos..end] + CRLF) && Stands(s, end + 2 + size, CRLF)
    requires at == end + 2 + size + 2 && Stands(s, at, Render(next))
    ensures WellFormed(g, b) && Stands(s, pos, Render(b)) && pos + |Render(b)| == at + |Render(next)|
  {
    var head, data := s[pos..end], s[end + 2..end + 2 + size];
    b := Chunk(head, data, next);
    assert pos + |head| == end;
    ChunkStands(s, pos, head, data, next);
  }

  /** The bytes are this body of the grammar, rendered. */
  predicate Renders(g: Grammar, b: ChunkedBody, bytes: seq<Byte>) {
    WellFormed(g, b) && Render(b) == bytes
  }

  /**
   * What is forwarded as a body is a body of the grammar exactly when the stream is strict: every size
   * line is a head of the grammar, every chunk's data is followed by a CRLF, and every trailer line is one
   * the grammar allows.
   */
  lemma {:induction false} ForwardsBodyIff(sizeOf: SizeOf, g: Grammar, s: seq<Byte>, pos: nat)
    requires Understands(sizeOf, g) && pos <= |s| && Body(sizeOf, s, pos).Some?
    ensures (exists b :: Renders(g, b, s[pos..Body(sizeOf, s, pos).value]))
       <==> Strict(g, s, pos)
  {
    var end := Body(sizeOf, s, pos).value;
    if b :| Renders(g, b, s[pos..end]) {
      BodyAccepted(sizeOf, g, s, pos, b);
    }
    if Strict(g, s, pos) {
      var b := BodyParsed(sizeOf, g, s, pos);
      assert Renders(g, b, s[pos..end]);
    }
  }

  // ================================================================ a reader that refuses some heads

  /** What the reader accepts of the grammar's heads it reads right. */
  ghost predicate Consistent(sizeOf: SizeOf, g: Grammar) {
    && (forall text {:trigger g.heads(text)} :: g.heads(text).Some? ==>
          NoLineBreak(text) && (sizeOf(text).Err? || sizeOf(text) == Ok(g.heads(text).value)))
    && FieldsAreLines(g)
  }

  /** The part of a grammar that the reader understands; the code also needs room to add two to a size. */
  ghost function Restricted(sizeOf: SizeOf, g: Grammar): Grammar {
    Grammar(
      (text: seq<Byte>) =>
        if g.heads(text).Some? && sizeOf(text).Ok? && g.heads(text).value + 2 < USIZE_MODULUS then g.heads(text)
        else None,
      g.fields)
  }

  lemma {:induction false} RestrictedUnderstood(sizeOf: SizeOf, g: Grammar)
    requires Consistent(sizeOf, g)
    ensures Understands(sizeOf, Restricted(sizeOf, g))
  {
    var r := Restricted(sizeOf, g);
    forall text | r.heads(text).Some?
      ensures NoLineBreak(text) && sizeOf(text) == Ok(r.heads(text).value) && r.heads(text).value + 2 < USIZE_MODULUS
    {
      assert g.heads(text).Some?;
    }
    assert forall text :: r.fields(text) == g.fields(text);
  }

  /** The reader accepts all heads of a body. */
  predicate AllRead(sizeOf: SizeOf, b: ChunkedBody) {
    sizeOf(b.head).Ok? && (b.Chunk? ==> AllRead(sizeOf, b.next))
  }

  /** A size is not one of the two usize values to which adding two wraps around. */
  predicate Unwrapping(size: nat) {
    size + 2 < USIZE_MODULUS || size >= USIZE_MODULUS
  }

  predicate NoWrap(b: ChunkedBody) {
    b.Chunk? ==> Unwrapping(|b.data|) && NoWrap(b.next)
  }

  /** The grammar without those two sizes. */
  ghost function Unwrapped(g: Grammar): Grammar {
    Grammar(
      (text: seq<Byte>) => if g.heads(text).Some? && Unwrapping(g.heads(text).value) then g.heads(text) else None,
      g.fields)
  }

  ghost predicate NeverWraps(g: Grammar) {
    forall text {:trigger g.heads(text)} :: g.heads(text).Some? ==> Unwrapping(g.heads(text).value)
  }

  lemma {:induction false} UnwrappedBody(g: Grammar, b: ChunkedBody)
    ensures WellFormed(Unwrapped(g), b) == (WellFormed(g, b) && NoWrap(b))
  {
    if b.Chunk? {
      UnwrappedBody(g, b.next);
    }
  }

  lemma {:induction false} NeverWrapsBody(g: Grammar, b: ChunkedBody)
    requires NeverWraps(g) && WellFormed(g, b)
    ensures NoWrap(b)
  {
    if b.Chunk? {
      NeverWrapsBody(g, b.next);
    }
  }

  /** A reader of usize values accepts no larger size. */
  ghost predicate ReadsUsize(sizeOf: SizeOf) {
    forall text {:trigger sizeOf(text)} :: sizeOf(text).Ok? ==> sizeOf(text).value < USIZE_MODULUS
  }

  lemma {:induction false} RestrictedBody(sizeOf: SizeOf, g: Grammar, b: ChunkedBody)
    requires Consistent(sizeOf, g) && ReadsUsize(sizeOf)
    ensures WellFormed(Restricted(sizeOf, g), b) ==> WellFormed(g, b)
    ensures WellFormed(g, b) && AllRead(sizeOf, b) && NoWrap(b) ==> WellFormed(Restricted(sizeOf, g), b)
  {
    if b.Chunk? {
      RestrictedBody(sizeOf, g, b.next);
    }
  }

  /** A body with a head that is refused is not delimited at all. */
  lemma {:induction false} UnreadStops(sizeOf: SizeOf, g: Grammar, s: seq<Byte>, pos: nat, b: ChunkedBody)
    requires Consistent(sizeOf, g) && ReadsUsize(sizeOf)
    requires WellFormed(g, b) && NoWrap(b) && Stands(s, pos, Render(b)) && !AllRead(sizeOf, b)
    ensures Body(sizeOf, s, pos) == None
    decreases b
  {
    HeadLine(g, s, pos, b);
    if sizeOf(b.head).Ok? {
      match b {
        case Chunk(head, data, next) =>
          var at := pos + |head| + 2 + |data| + 2;
          ChunkStands(s, pos, head, data, next);
          UnreadStops(sizeOf, g, s, at, next);
          BodyAtChunk(sizeOf, s, pos, pos + |head|, |data|, at);
      }
    } else {
      BodyRefused(sizeOf, s, pos, pos + |b.head|);
    }
  }

  lemma {:induction false} BodyRefused(sizeOf: SizeOf, s: seq<Byte>, pos: nat, end: nat)
    requires pos <= |s| && LineEnd(s, pos) == Some(end) && sizeOf(s[pos..end]).Err?
    ensures Body(sizeOf, s, pos) == None
  {
  }

  lemma {:induction false} HeadLine(g: Grammar, s: seq<Byte>, pos: nat, b: ChunkedBody)
    requires WellFormed(g, b) && Stands(s, pos, Render(b))
    requires forall text {:trigger g.heads(text)} :: g.heads(text).Some? ==> NoLineBreak(text)
    ensures LineEnd(s, pos) == Some(pos + |b.head|) && s[pos..pos + |b.head|] == b.head
  {
    HeadStands(s, pos, b);
    assert g.heads(b.head).Some?;
    LineStands(s, pos, b.head);
    StandsSplit(s, pos, b.head, CRLF);
  }

  lemma {:induction false} HeadStands(s: seq<Byte>, pos: nat, b: ChunkedBody)
    requires Stands(s, pos, Render(b))
    ensures Stands(s, pos, b.head + CRLF)
  {
    var tail := if b.Chunk? then b.data + CRLF + Render(b.next) else RenderTrailers(b.trailers);
    assert Render(b) == b.head + CRLF + tail;
    StandsSplit(s, pos, b.head + CRLF, tail);
  }

  /** A body of the grammar is delimited exactly, whatever follows it, if and only if all its heads are read. */
  lemma {:induction false} DelimitedIff(sizeOf: SizeOf, g: Grammar, b: ChunkedBody, rest: seq<Byte>)
    requires Consistent(sizeOf, g) && ReadsUsize(sizeOf) && WellFormed(g, b) && NoWrap(b)
    ensures Body(sizeOf, Render(b) + rest, 0) == Some(|Render(b)|) <==> AllRead(sizeOf, b)
    ensures AllRead(sizeOf, b) && ShortHeads(b) ==> ShortLines(sizeOf, Render(b) + rest, 0) == true
  {
    if AllRead(sizeOf, b) {
      RestrictedUnderstood(sizeOf, g);
      RestrictedBody(sizeOf, g, b);
      Delimited(sizeOf, Restricted(sizeOf, g), b, rest);
    } else {
      var s := Render(b) + rest;
      assert s[0..|Render(b)|] == Render(b);
      UnreadStops(sizeOf, g, s, 0, b);
    }
  }

  lemma {:induction false} Delimited(sizeOf: SizeOf, g: Grammar, b: ChunkedBody, rest: seq<Byte>)
    requires Understands(sizeOf, g) && WellFormed(g, b)
    ensures Body(sizeOf, Render(b) + rest, 0) == Some(|Render(b)|)
    ensures ShortHeads(b) ==> ShortLines(sizeOf, Render(b) + rest, 0) == true
  {
    var s := Render(b) + rest;
    assert s[0..|Render(b)|] == Render(b);
    BodyAccepted(sizeOf, g, s, 0, b);
    if ShortHeads(b) {
      BodyShort(sizeOf, g, s, 0, b);
    }
  }

  /** In a stream shorter than 2^64 bytes no size wraps. */
  lemma {:induction false} ShortNoWrap(s: seq<Byte>, pos: nat, b: ChunkedBody)
    requires Stands(s, pos, Render(b)) && |s| < USIZE_MODULUS
    ensures NoWrap(b)
    decreases b
  {
    if b.Chunk? {
      ChunkStands(s, pos, b.head, b.data, b.next);
      ShortNoWrap(s, pos + |b.head| + 2 + |b.data| + 2, b.next);
    }
  }

  /** Where the code accepts a body, the heads it refuses play no role. */
  lemma {:induction false} StrictRestricted(sizeOf: SizeOf, g: Grammar, s: seq<Byte>, pos: nat)
    requires Consistent(sizeOf, g) && ReadsUsize(sizeOf) && NeverWraps(g)
    requires pos <= |s| && Body(sizeOf, s, pos).Some?
    ensures Strict(g, s, pos) == Strict(Restricted(sizeOf, g), s, pos)
    decreases |s| - pos
  {
    var end, size := HeadRead(sizeOf, g, s, pos);
    if size != Some(0) && Followed(s, end, size) {
      StrictRestricted(sizeOf, g, s, end + 2 + size.value + 2);
    }
    SameHead(g, Restricted(sizeOf, g), s, pos, end);
  }

  /** The head of what the code accepts is in the restricted grammar if it is in the grammar. */
  lemma {:induction false} HeadRead(sizeOf: SizeOf, g: Grammar, s: seq<Byte>, pos: nat)
    returns (end: nat, size: Option<nat>)
    requires Consistent(sizeOf, g) && ReadsUsize(sizeOf) && NeverWraps(g)
    requires pos <= |s| && Body(sizeOf, s, pos).Some?
    ensures LineEnd(s, pos) == Some(end)
    ensures g.heads(s[pos..end]) == Restricted(sizeOf, g).heads(s[pos..end]) == size
    ensures size != Some(0) && Followed(s, end, size) ==>
              Body(sizeOf, s, end + 2 + size.value + 2) == Body(sizeOf, s, pos)
  {
    end := LineEnd(s, pos).value;
    var head := s[pos..end];
    size := g.heads(head);
    assert sizeOf(head).Ok?;
    if size.Some? {
      assert sizeOf(head) == Ok(size.value);
      if size != Some(0) && Followed(s, end, size) {
        BodyAtChunk(sizeOf, s, pos, end, size.value, end + 2 + size.value + 2);
      }
    }
  }

  /** Two grammars that agree on the line at `pos`, on fields, and behind the chunk, agree. */
  lemma {:induction false} SameHead(g: Grammar, r: Grammar, s: seq<Byte>, pos: nat, end: nat)
    requires pos <= |s| && LineEnd(s, pos) == Some(end)
    requires g.fields == r.fields && g.heads(s[pos..end]) == r.heads(s[pos..end])
    requires
      var size := g.heads(s[pos..end]);
      size != Some(0) && Followed(s, end, size) ==>
        Strict(g, s, end + 2 + size.value + 2) == Strict(r, s, end + 2 + size.value + 2)
    ensures Strict(g, s, pos) == Strict(r, s, pos)
  {
    var size := g.heads(s[pos..end]);
    if size == Some(0) {
      SameTrailers(g, r, s, end + 2);
      StrictAtLast(g, s, pos, end);
      StrictAtLast(r, s, pos, end);
    } else if Followed(s, end, size) {
      SameAtChunk(g, r, s, pos, end, size.value, end + 2 + size.value + 2);
    } else {
      NotStrict(g, s, pos, end);
      NotStrict(r, s, pos, end);
    }
  }

  /** The line that ends at `end` gives a size, and a line break follows that much data. */
  predicate Followed(s: seq<Byte>, end: nat, size: Option<nat>) {
    size.Some? && Stands(s, end + 2 + size.value, CRLF)
  }

  lemma {:induction false} SameAtChunk(g: Grammar, r: Grammar, s: seq<Byte>, pos: nat, end: nat, size: nat, next: nat)
    requires pos <= |s| && LineEnd(s, pos) == Some(end) && size != 0
    requires g.heads(s[pos..end]) == r.heads(s[pos..end]) == Some(size)
    requires Stands(s, end + 2 + size, CRLF) && next == end + 2 + size + 2 && Strict(g, s, next) == Strict(r, s, next)
    ensures Strict(g, s, pos) == Strict(r, s, pos)
  {
    StrictAtChunk(g, s, pos, end, size, next);
    StrictAtChunk(r, s, pos, end, size, next);
  }

  lemma {:induction false} NotStrict(g: Grammar, s: seq<Byte>, pos: nat, end: nat)
    requires pos <= |s| && LineEnd(s, pos) == Some(end)
    requires g.heads(s[pos..end]) != Some(0) && !Followed(s, end, g.heads(s[pos..end]))
    ensures !Strict(g, s, pos)
  {
  }

  lemma {:induction false} SameTrailers(g: Grammar, r: Grammar, s: seq<Byte>, pos: nat)
    requires pos <= |s| && g.fields == r.fields
    ensures StrictTrailers(g, s, pos) == StrictTrailers(r, s, pos)
    decreases |s| - pos
  {
    var end := LineEnd(s, pos);
    if end.Some? && end.value != pos {
      SameTrailers(g, r, s, end.value + 2);
    }
  }

  /** What is forwarded as a body is one of the whole grammar exactly when the stream is strict. */
  lemma {:induction false} ForwardsGrammarIff(sizeOf: SizeOf, g: Grammar, s: seq<Byte>)
    requires Consistent(sizeOf, g) && ReadsUsize(sizeOf) && NeverWraps(g) && Body(sizeOf, s, 0).Some?
    ensures (exists b :: Renders(g, b, s[0..Body(sizeOf, s, 0).value])) <==> Strict(g, s, 0)
  {
    var end := Body(sizeOf, s, 0).value;
    var r := Restricted(sizeOf, g);
    RestrictedUnderstood(sizeOf, g);
    ForwardsBodyIff(sizeOf, r, s, 0);
    StrictRestricted(sizeOf, g, s, 0);
    if b :| Renders(g, b, s[0..end]) {
      ReadBody(sizeOf, g, s, end, b);
      assert Renders(r, b, s[0..end]);
    }
    if b :| Renders(r, b, s[0..end]) {
      RestrictedBody(sizeOf, g, b);
      assert Renders(g, b, s[0..end]);
    }
  }

  /** What the code accepted it has read. */
  lemma {:induction false} ReadBody(sizeOf: SizeOf, g: Grammar, s: seq<Byte>, end: nat, b: ChunkedBody)
    requires Consistent(sizeOf, g) && ReadsUsize(sizeOf) && NeverWraps(g)
    requires Body(sizeOf, s, 0) == Some(end) && Renders(g, b, s[0..end])
    ensures WellFormed(Restricted(sizeOf, g), b)
  {
    NeverWrapsBody(g, b);
    if !AllRead(sizeOf, b) {
      UnreadStops(sizeOf, g, s, 0, b);
    }
    RestrictedBody(sizeOf, g, b);
  }

  // ================================================================ the code and RFC 9112

  lemma {:induction false} CodeConsistent()
    ensures Consistent(ChunkSize, Rfc()) && ReadsUsize(ChunkSize)
  {
    var g := Rfc();
    forall text | g.heads(text).Some?
      ensures NoLineBreak(text) && (ChunkSize(text).Err? || ChunkSize(text) == Ok(g.heads(text).value))
    {
      SizeReadIff(text);
    }
    forall text | g.fields(text)
      ensures text != [] && NoLineBreak(text)
    {
      FieldIsLine(text);
    }
  }

  /** Every head is UTF-8 and every size fits usize. */
  predicate Readable(b: ChunkedBody) {
    ValidUtf8(b.head) && (b.Chunk? ==> |b.data| < USIZE_MODULUS && Readable(b.next))
  }

  lemma {:induction false} ReadableRead(b: ChunkedBody)
    requires WellFormed(Rfc(), b)
    ensures AllRead(ChunkSize, b) == Readable(b)
  {
    SizeReadIff(b.head);
    if b.Chunk? {
      ReadableRead(b.next);
    }
  }

  /**
   * A chunked body of RFC 9112 none of whose sizes wraps is delimited exactly, whatever follows it, if and
   * only if every head is UTF-8 and every size fits usize; if moreover its lines are short, it is forwarded
   * however the stream is cut.
   */
  lemma {:induction false} RfcBodyDelimitedIff(b: ChunkedBody, rest: seq<Byte>)
    requires WellFormed(Rfc(), b)
    ensures NoWrap(b) ==> (Body(ChunkSize, Render(b) + rest, 0) == Some(|Render(b)|) <==> Readable(b))
    ensures NoWrap(b) && Readable(b) && ShortHeads(b) ==> ShortLines(ChunkSize, Render(b) + rest, 0)
  {
    if NoWrap(b) {
      CodeConsistent();
      ReadableRead(b);
      DelimitedIff(ChunkSize, Rfc(), b, rest);
    }
  }

  /** What a size that wraps leads to: the next line is looked for at most one byte into the data. */
  lemma {:induction false} WrapLeads(sizeOf: SizeOf, s: seq<Byte>, pos: nat, end: nat, size: nat, next: nat)
    requires pos <= |s| && LineEnd(s, pos) == Some(end) && sizeOf(s[pos..end]) == Ok(size) && !Unwrapping(size)
    requires next == end + 2 + (size + 2 - USIZE_MODULUS) <= |s|
    ensures next <= end + 3 && Body(sizeOf, s, pos) == Body(sizeOf, s, next)
  {
    BodyAtChunk(sizeOf, s, pos, end, size, next);
  }

  /** In a stream shorter than 2^64 bytes the two sizes play no role. */
  lemma {:induction false} StrictUnwrapped(g: Grammar, s: seq<Byte>, pos: nat)
    requires pos <= |s| < USIZE_MODULUS
    ensures Strict(g, s, pos) == Strict(Unwrapped(g), s, pos)
    decreases |s| - pos
  {
    var end := LineEnd(s, pos);
    if end.Some? {
      var size := g.heads(s[pos..end.value]);
      if size != Some(0) && Followed(s, end.value, size) {
        StrictUnwrapped(g, s, end.value + 2 + size.value + 2);
      }
      if size.None? || Unwrapping(size.value) {
        SameHead(g, Unwrapped(g), s, pos, end.value);
      } else {
        NotStrict(g, s, pos, end.value);
        NotStrict(Unwrapped(g), s, pos, end.value);
      }
    }
  }

  /**
   * What is forwarded as a body is a chunked body of RFC 9112, none of whose sizes wraps, exactly when the
   * stream is strict: every size line is such a chunk head, every chunk's data is followed by a CRLF, and
   * every trailer line is a field line. The code checks none of these. In a stream shorter than 2^64 bytes
   * no size can wrap.
   */
  lemma {:induction false} ForwardsRfcBodyIff(s: seq<Byte>)
    requires Body(ChunkSize, s, 0).Some?
    ensures (exists b :: Renders(Rfc(), b, s[0..Body(ChunkSize, s, 0).value]) && NoWrap(b))
       <==> Strict(Unwrapped(Rfc()), s, 0)
    ensures |s| < USIZE_MODULUS ==>
              ((exists b :: Renders(Rfc(), b, s[0..Body(ChunkSize, s, 0).value]))
               <==> Strict(Rfc(), s, 0))
  {
    var end := Body(ChunkSize, s, 0).value;
    UnwrappedForwards(s);
    if b :| Renders(Unwrapped(Rfc()), b, s[0..end]) {
      UnwrappedBody(Rfc(), b);
      assert Renders(Rfc(), b, s[0..end]) && NoWrap(b);
    }
    if b :| Renders(Rfc(), b, s[0..end]) && NoWrap(b) {
      UnwrappedBody(Rfc(), b);
      assert Renders(Unwrapped(Rfc()), b, s[0..end]);
    }
    if |s| < USIZE_MODULUS {
      StrictUnwrapped(Rfc(), s, 0);
      if b :| Renders(Rfc(), b, s[0..end]) {
        ShortNoWrap(s, 0, b);
      }
    }
  }

  lemma {:induction false} UnwrappedForwards(s: seq<Byte>)
    requires Body(ChunkSize, s, 0).Some?
    ensures (exists b :: Renders(Unwrapped(Rfc()), b, s[0..Body(ChunkSize, s, 0).value]))
       <==> Strict(Unwrapped(Rfc()), s, 0)
  {
    CodeConsistent();
    var g := Unwrapped(Rfc());
    assert Consistent(ChunkSize, g) by {
      assert forall text :: g.fields(text) == Rfc().fields(text);
    }
    ForwardsGrammarIff(ChunkSize, g, s);
  }
}
