/** When the server takes a chunked message to be complete: the verdict of request_buf.cpp on the bodies
    that header_handler.cpp decodes (section 4.1 of RFC 7230). */
module ChunkedFraming {
  import opened Strings
  import opened RequestFraming
  import opened ChunkedBody

  /** The line of the last chunk, with the one zero that it commonly has. */
  const LAST_CHUNK_LINE := "0\r\n"

  /** A field line of a trailer, without its line end. */
  predicate IsFieldLine(line: string) {
    |line| >= 2 && '\r' !in line && '\n' !in line
  }

  predicate IsTrailer(trailer: seq<string>) {
    forall k :: 0 <= k < |trailer| ==> IsFieldLine(trailer[k])
  }

  /** The last chunk's line and the field lines after it, each with its line end. */
  function LastLines(trailer: seq<string>): string {
    if trailer == [] then LAST_CHUNK_LINE else LastLines(trailer[..|trailer| - 1]) + trailer[|trailer| - 1] + CRLF
  }

  function Message(headers: string, chunks: seq<Chunk>, trailer: seq<string>): string {
    headers + (Encode(chunks) + (LastLines(trailer) + CRLF))
  }

  // ---------------------------------------------------------------- data chunks

  lemma {:induction false} ChunksEndTheirLine(chunks: seq<Chunk>)
    requires chunks != []
    ensures |Encode(chunks)| >= 2 && Encode(chunks)[|Encode(chunks)| - 2..] == CRLF
  {
    var first := EncodeChunk(chunks[0]);
    assert first[|first| - 2..] == CRLF;
    if |chunks| == 1 {
      assert Encode(chunks[1..]) == "" && first + "" == first;
    } else {
      ChunksEndTheirLine(chunks[1..]);
    }
  }

  /** The end of the last data chunk and the last chunk's line look like a terminator. */
  lemma EarlyTerminator(front: string)
    requires |front| >= 2 && front[|front| - 2..] == CRLF
    ensures EndsInTerminator(front + LAST_CHUNK_LINE)
  {
    var s := front + LAST_CHUNK_LINE;
    assert s[|s| - 5..] == "\r\n0\r\n";
    assert "\r\n0\r\n"[1..] == "\n0\r\n" && "\n0\r\n"[1..] == "0\r\n" && "0\r\n"[1..] == "\r\n" && "\r\n"[1..] == "\n";
  }

  /** A message with data is taken to be complete with the line of its last chunk, whatever the fragments. */
  lemma CompleteTooEarly(headers: string, chunks: seq<Chunk>, trailer: seq<string>, fragments: seq<string>)
    requires ChunkedHeaders(headers) && chunks != []
    requires Flatten(fragments) == headers + (Encode(chunks) + LAST_CHUNK_LINE)
    ensures Flatten(fragments) <= Message(headers, chunks, trailer) && Flatten(fragments) != Message(headers, chunks, trailer)
    ensures VerdictOn(Receive(fragments)) == Valid
  {
    hide Find, Flatten, Receive, EndsInTerminator, VerdictOn, LastLines;
    ChunksEndTheirLine(chunks);
    EarlyTerminator(Encode(chunks));
    ChunkedPrefixVerdict(headers, Encode(chunks) + LAST_CHUNK_LINE, fragments);
    LastChunkLineFirst(trailer);
    var rest := LastLines(trailer)[3..] + CRLF;
    assert Message(headers, chunks, trailer) == headers + (Encode(chunks) + LAST_CHUNK_LINE) + rest;
  }

  lemma {:induction false} LastChunkLineFirst(trailer: seq<string>)
    ensures |LastLines(trailer)| >= 3 && LastLines(trailer)[..3] == LAST_CHUNK_LINE
    ensures LastLines(trailer)[|LastLines(trailer)| - 2..] == CRLF
  {
    if trailer == [] {
    } else {
      LastChunkLineFirst(trailer[..|trailer| - 1]);
    }
  }

  // ---------------------------------------------------------------- the last chunk and its trailer

  predicate IsLineEnd(c: char) {
    c in LINE_END
  }

  /** No two characters at a distance of two both belong to a line end. */
  predicate Sparse(s: string) {
    forall i {:trigger s[i]} :: 0 <= i < |s| - 2 ==> !(IsLineEnd(s[i]) && IsLineEnd(s[i + 2]))
  }

  lemma CountFive(s: string)
    requires |s| == 5 && Sparse(s)
    ensures Count(s, LINE_END) < 4
  {
    CountParts(s, LINE_END);
    assert !(IsLineEnd(s[0]) && IsLineEnd(s[2]));
    assert !(IsLineEnd(s[1]) && IsLineEnd(s[3]));
  }

  lemma CountParts(s: string, cs: set<char>)
    requires |s| == 5
    ensures Count(s, cs) == (if s[0] in cs then 1 else 0) + (if s[1] in cs then 1 else 0) + (if s[2] in cs then 1 else 0)
                          + (if s[3] in cs then 1 else 0) + (if s[4] in cs then 1 else 0)
  {
    assert Count(s[4..], cs) == if s[4] in cs then 1 else 0;
    assert s[3..][1..] == s[4..] && s[2..][1..] == s[3..] && s[1..][1..] == s[2..];
    assert Count(s[3..], cs) == (if s[3] in cs then 1 else 0) + Count(s[4..], cs);
    assert Count(s[2..], cs) == (if s[2] in cs then 1 else 0) + Count(s[3..], cs);
    assert Count(s[1..], cs) == (if s[1] in cs then 1 else 0) + Count(s[2..], cs);
  }

  lemma SparseHasNoTerminator(s: string)
    requires Sparse(s)
    ensures !EndsInTerminator(s)
  {
    hide Count;
    if |s| >= 5 {
      var last := s[|s| - 5..];
      forall i | 0 <= i < |last| - 2
        ensures !(IsLineEnd(last[i]) && IsLineEnd(last[i + 2]))
      {
        assert last[i] == s[|s| - 5 + i];
      }
      CountFive(last);
    }
  }

  lemma {:induction false} LastLinesAreSparse(trailer: seq<string>)
    requires IsTrailer(trailer)
    ensures Sparse(LastLines(trailer))
  {
    if trailer == [] {
    } else {
      var init, line := trailer[..|trailer| - 1], trailer[|trailer| - 1];
      LastLinesAreSparse(init);
      AnotherLine(LastLines(init), line);
    }
  }

  lemma AnotherLine(s: string, line: string)
    requires Sparse(s) && IsFieldLine(line)
    ensures Sparse(s + line + CRLF)
  {
    var t := s + line + CRLF;
    forall i | 0 <= i < |t| - 2
      ensures !(IsLineEnd(t[i]) && IsLineEnd(t[i + 2]))
    {
      if i + 2 < |s| {
        assert t[i] == s[i] && t[i + 2] == s[i + 2];
      } else if i + 2 < |s + line| {
        assert t[i + 2] == line[i + 2 - |s|];
      } else {
        assert t[i] == line[i - |s|];
      }
    }
  }

  /** The last line before the blank one: the last field line, or that of the last chunk, ends in '0'. */
  predicate EndsInZero(trailer: seq<string>) {
    trailer == [] || (trailer[|trailer| - 1] != "" && trailer[|trailer| - 1][|trailer[|trailer| - 1]| - 1] == '0')
  }

  /** Nothing that ends inside these lines or inside the blank line is a terminator. */
  lemma NoneInside(trailer: seq<string>, body: string)
    requires IsTrailer(trailer) && body <= LastLines(trailer) + "\r"
    ensures !EndsInTerminator(body)
  {
    hide Count, EndsInTerminator;
    var s := LastLines(trailer);
    LastLinesAreSparse(trailer);
    if |body| <= |s| {
      assert body == s[..|body|];
      SparsePrefix(s, |body|);
      SparseHasNoTerminator(body);
    } else {
      assert body == s + "\r";
      HalfBlankLine(trailer);
    }
  }

  lemma SparsePrefix(s: string, n: nat)
    requires Sparse(s) && n <= |s|
    ensures Sparse(s[..n])
  {
    forall i | 0 <= i < n - 2
      ensures !(IsLineEnd(s[..n][i]) && IsLineEnd(s[..n][i + 2]))
    {
      assert s[..n][i] == s[i];
    }
  }

  lemma HalfBlankLine(trailer: seq<string>)
    requires IsTrailer(trailer)
    ensures !EndsInTerminator(LastLines(trailer) + "\r")
  {
    hide Count;
    var s := LastLines(trailer) + "\r";
    if trailer == [] {
    } else {
      var init, line := LastLines(trailer[..|trailer| - 1]), trailer[|trailer| - 1];
      var last := s[|s| - 5..];
      assert s == init + line + "\r\n\r" && last[0] == line[|line| - 2] && last[1] == line[|line| - 1];
      CountParts(last, LINE_END);
    }
  }

  /** The blank line completes a terminator exactly when the line before it ends in '0'. */
  lemma WholeBlankLine(trailer: seq<string>)
    requires IsTrailer(trailer)
    ensures EndsInTerminator(LastLines(trailer) + CRLF) <==> EndsInZero(trailer)
  {
    hide Count;
    var s := LastLines(trailer) + CRLF;
    if trailer == [] {
      assert s[|s| - 5..] == s;
    } else {
      var init, line := LastLines(trailer[..|trailer| - 1]), trailer[|trailer| - 1];
      assert s == init + line + "\r\n\r\n" && s[|s| - 5] == line[|line| - 1];
    }
    var last := s[|s| - 5..];
    LastChunkLineFirst(trailer);
    assert last[1..] == "\r\n\r\n";
    CountParts(last, LINE_END);
    CountParts(last, ZERO);
  }

  // ---------------------------------------------------------------- when the verdict comes with the last byte

  /** Judged complete with its last byte and at no prefix before. */
  ghost predicate CompleteOnlyAtTheEnd(message: string) {
    forall fragments :: Flatten(fragments) <= message ==>
      (VerdictOn(Receive(fragments)) == Valid <==> Flatten(fragments) == message)
  }

  lemma FlattenOne(s: string)
    ensures Flatten([s]) == s
  {
    FlattenAppend([], s);
    assert [] + [s] == [s] && Flatten([]) + s == s;
  }

  /** Whatever the body: the verdict comes with the last byte, and not before, if and only if the body ends in a
      terminator and none of its proper prefixes does. */
  lemma CompleteExactlyAtTheOnlyTerminator(headers: string, body: string)
    requires ChunkedHeaders(headers)
    ensures CompleteOnlyAtTheEnd(headers + body) <==>
      EndsInTerminator(body) && forall b: nat :: b < |body| ==> !EndsInTerminator(body[..b])
  {
    hide Find, Flatten, Receive, VerdictOn, ChunkedHeaders, EndsInTerminator;
    forall b: nat | b <= |body|
      ensures Flatten([headers + body[..b]]) == headers + body[..b] <= headers + body
      ensures VerdictOn(Receive([headers + body[..b]])) == Valid <==> EndsInTerminator(body[..b])
    {
      FlattenOne(headers + body[..b]);
      assert (headers + body[..b])[|headers|..] == body[..b];
      assert headers + body == (headers + body[..b]) + body[b..];
      ChunkedPrefixVerdict(headers, body, [headers + body[..b]]);
    }
    assert body[..|body|] == body;
    if CompleteOnlyAtTheEnd(headers + body) {
      forall b: nat | b < |body|
        ensures !EndsInTerminator(body[..b])
      {
        assert |headers + body[..b]| < |headers + body|;
      }
    } else {
      var fragments :| Flatten(fragments) <= headers + body &&
        !(VerdictOn(Receive(fragments)) == Valid <==> Flatten(fragments) == headers + body);
      var got := Flatten(fragments);
      ChunkedPrefixVerdict(headers, body, fragments);
      if |headers| <= |got| {
        assert got[|headers|..] == body[..|got| - |headers|];
        assert got == headers + got[|headers|..];
      }
    }
  }

  /** Without data: judged complete with the last byte if the last line ends in '0', and otherwise never. */
  lemma LastChunkAlone(headers: string, trailer: seq<string>, fragments: seq<string>)
    requires ChunkedHeaders(headers) && IsTrailer(trailer) && Flatten(fragments) <= Message(headers, [], trailer)
    ensures VerdictOn(Receive(fragments)) == Valid <==>
      Flatten(fragments) == Message(headers, [], trailer) && EndsInZero(trailer)
  {
    hide Find, Flatten, Receive, VerdictOn, EndsInTerminator, ChunkedHeaders, LastLines, EndsInZero, IsTrailer;
    var got, rest := Flatten(fragments), LastLines(trailer) + CRLF;
    assert Encode([]) + rest == rest;
    ChunkedPrefixVerdict(headers, rest, fragments);
    if |headers| <= |got| {
      var body := got[|headers|..];
      assert got == headers + body && body <= rest;
      if |got| == |headers + rest| {
        assert body == rest;
        WholeBlankLine(trailer);
      } else {
        assert rest[..|rest| - 1] == LastLines(trailer) + "\r";
        NoneInside(trailer, body);
      }
    }
  }

  /** A chunked message whose last chunk's line is a single zero is judged complete exactly with its last byte
      if and only if it carries no data and the last line before its blank line ends in '0', as it does
      without a trailer. */
  lemma CompleteAtTheEndExactlyWithoutData(headers: string, chunks: seq<Chunk>, trailer: seq<string>)
    requires ChunkedHeaders(headers) && IsTrailer(trailer)
    ensures CompleteOnlyAtTheEnd(Message(headers, chunks, trailer)) <==> chunks == [] && EndsInZero(trailer)
  {
    hide Find, Flatten, Receive, VerdictOn, ChunkedHeaders, Encode, LastLines, EndsInZero, IsTrailer;
    var message := Message(headers, chunks, trailer);
    if chunks == [] {
      forall fragments | Flatten(fragments) <= message
        ensures VerdictOn(Receive(fragments)) == Valid <==> Flatten(fragments) == message && EndsInZero(trailer)
      {
        LastChunkAlone(headers, trailer, fragments);
      }
      FlattenOne(message);
    } else {
      var early := headers + (Encode(chunks) + LAST_CHUNK_LINE);
      FlattenOne(early);
      CompleteTooEarly(headers, chunks, trailer, [early]);
    }
  }
}
