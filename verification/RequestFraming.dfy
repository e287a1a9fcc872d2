/** Reassembly of a request from arbitrary fragments: request_buf.cpp and server::update_request_buffer
    (sections 3.3.2 and 3.3.3 of RFC 7230). */
module RequestFraming {
  import opened Strings
  import opened Numbers

  const LENGTH_FIELD := "Content-Length:"

  datatype Verdict = Valid | Invalid

  /** What one fragment of the reverse scan comes to. */
  datatype Scan = Decided(verdict: Verdict) | Undecided

  // ---------------------------------------------------------------- what the buffer holds, as values

  datatype Framed = Framed(headers: string, body: seq<string>, bodySize: nat)

  const EMPTY := Framed("", [], 0)

  predicate HeadersReceived(headers: string) {
    Find(headers, HEADER_END, 0) != -1
  }

  function PushBody(f: Framed, data: string): Framed {
    f.(body := f.body + [data], bodySize := f.bodySize + |data|)
  }

  function PushHeader(f: Framed, data: string): Framed {
    var all := f.headers + data;
    var pos := Find(all, HEADER_END, 0);
    if pos == -1 || pos + 4 == |all| then f.(headers := all)
    else PushBody(f, all[pos + 4..]).(headers := all[..pos + 4])
  }

  function Push(f: Framed, data: string): Framed {
    if HeadersReceived(f.headers) then PushBody(f, data) else PushHeader(f, data)
  }

  /** The bytes that follow the field name and one separator. */
  function FieldText(headers: string, pos: nat): string {
    if pos + 16 <= |headers| then headers[pos + 16..] else ""
  }

  function Count(s: string, cs: set<char>): nat {
    if s == "" then 0 else (if s[0] in cs then 1 else 0) + Count(s[1..], cs)
  }

  const ZERO := {'0'}
  const LINE_END := {'\r', '\n'}

  /** The last five bytes are one '0' and four line-end characters. */
  predicate EndsInTerminator(s: string) {
    |s| >= 5 && Count(s[|s| - 5..], ZERO) == 1 && Count(s[|s| - 5..], LINE_END) == 4
  }

  /** The verdict on complete headers; a negative length widens to a huge size_t. */
  function Judge(headers: string, body: string, bodySize: nat): Verdict {
    var pos := Find(headers, LENGTH_FIELD, 0);
    var complete :=
      if pos != -1 then ToUint64(Atoi(FieldText(headers, pos))) == bodySize
      else Find(headers, "chunked", 0) == -1 || EndsInTerminator(body);
    if complete then Valid else Invalid
  }

  /** What the reverse scan knows about the part it has read without reaching a verdict. */
  predicate Scanned(seen: string, zero: nat, endOfLine: nat) {
    zero == Count(seen, ZERO) && endOfLine == Count(seen, LINE_END) && zero + endOfLine == |seen| && !EndsInTerminator(seen)
  }

  lemma {:induction false} CountsCover(s: string)
    ensures Count(s, ZERO) + Count(s, LINE_END) <= |s|
    ensures Count(s, ZERO) + Count(s, LINE_END) == |s| ==> forall k :: 0 <= k < |s| ==> s[k] in ZERO + LINE_END
  {
    if s == "" {
    } else {
      CountsCover(s[1..]);
      assert s == [s[0]] + s[1..];
    }
  }

  lemma NothingScanned()
    ensures Scanned("", 0, 0)
  {
  }

  /** One more byte that the scan accepts, its counter raised: the counters still describe the part read, and
      they stand at one and four exactly when that part ends in a terminator, which then ends the whole. */
  lemma ScanStep(front: string, c: char, seen: string, zero0: nat, endOfLine0: nat, zero: nat, endOfLine: nat)
    requires Scanned(seen, zero0, endOfLine0)
    requires if c == '0' then zero == zero0 + 1 && endOfLine == endOfLine0
             else c in LINE_END && zero == zero0 && endOfLine == endOfLine0 + 1
    ensures if zero == 1 && endOfLine == 4 then EndsInTerminator(front + [c] + seen) else Scanned([c] + seen, zero, endOfLine)
  {
    var s, whole := [c] + seen, front + [c] + seen;
    assert s[1..] == seen;
    if |s| == 5 {
      assert s[|s| - 5..] == s && whole[|whole| - 5..] == s;
    } else if |s| > 5 {
      assert s[|s| - 5..] == seen[|seen| - 5..];
    }
  }

  /** A byte that the scan rejects cannot stand in front of a terminator it has not yet seen. */
  lemma ForeignByte(front: string, c: char, seen: string, zero: nat, endOfLine: nat)
    requires c !in ZERO + LINE_END && Scanned(seen, zero, endOfLine)
    ensures !EndsInTerminator(front + [c] + seen)
  {
    var s := front + [c] + seen;
    if |seen| >= 5 {
      assert s[|s| - 5..] == seen[|seen| - 5..];
    } else if |s| >= 5 {
      var last := s[|s| - 5..];
      assert last[4 - |seen|] == c;
      CountsCover(last);
    }
  }

  // ---------------------------------------------------------------- request_buf

  class RequestBuf {
    var headers: string
    var body: seq<string>
    var bodySize: nat

    constructor ()
      ensures Value() == EMPTY
    {
      headers, body, bodySize := "", [], 0;
    }

    function Value(): Framed
      reads this
    {
      Framed(headers, body, bodySize)
    }

    method AddBodyData(requestData: string)
      modifies this
      ensures Value() == PushBody(old(Value()), requestData)
      ensures Flatten(body) == Flatten(old(body)) + requestData
      ensures old(bodySize) == |Flatten(old(body))| ==> bodySize == |Flatten(body)|
    {
      FlattenAppend(body, requestData);
      body := body + [requestData];
      bodySize := bodySize + |requestData|;
    }

    method AddHeaderData(requestData: string)
      modifies this
      ensures Value() == PushHeader(old(Value()), requestData)
    {
      headers := headers + requestData;
      var pos := Find(headers, HEADER_END, 0);
      if pos != -1 {
        if pos + 4 == |headers| {
          return;
        }
        AddBodyData(headers[pos + 4..]);
        headers := headers[..pos + 4];
      }
    }

    method HeadersComplete() returns (r: bool)
      ensures r == HeadersReceived(headers)
      ensures r <==> exists k :: OccursAt(headers, HEADER_END, k)
    {
      r := Find(headers, HEADER_END, 0) != -1;
    }

    /** The inner loop: one fragment, from its last byte to its first. */
    method ScanFragment(str: string, zero0: nat, endOfLine0: nat, ghost front: string, ghost after: string)
        returns (r: Scan, zero: nat, endOfLine: nat)
      requires Scanned(after, zero0, endOfLine0)
      ensures r == Undecided ==> Scanned(str + after, zero, endOfLine)
      ensures r != Undecided ==> (r == Decided(Valid) <==> EndsInTerminator(front + str + after))
    {
      hide Count, EndsInTerminator, Scanned;
      zero, endOfLine := zero0, endOfLine0;
      ghost var seen := after;
      var i := |str| - 1;
      assert str[i + 1..] == "" && "" + after == after;
      while i >= 0
        invariant -1 <= i < |str| && seen == str[i + 1..] + after && Scanned(seen, zero, endOfLine)
      {
        ghost var earlier, zeros, ends := front + str[..i], zero, endOfLine;
        assert front + str + after == earlier + [str[i]] + seen;
        assert str[i..] + after == [str[i]] + seen;
        if str[i] == '\r' || str[i] == '\n' {
          endOfLine := endOfLine + 1;
        } else if str[i] == '0' {
          zero := zero + 1;
        } else {
          ForeignByte(earlier, str[i], seen, zero, endOfLine);
          return Decided(Invalid), zero, endOfLine;
        }
        ScanStep(earlier, str[i], seen, zeros, ends, zero, endOfLine);
        if zero == 1 && endOfLine == 4 {
          return Decided(Valid), zero, endOfLine;
        }
        seen := [str[i]] + seen;
        i := i - 1;
      }
      assert str[0..] == str;
      return Undecided, zero, endOfLine;
    }

    /** The outer loop: the fragments from the last to the first. */
    method ScanBody() returns (verdict: Verdict)
      ensures verdict == Valid <==> EndsInTerminator(Flatten(body))
    {
      hide Count, EndsInTerminator;
      var endOfLine, zero := 0, 0;
      ghost var flat, seen := Flatten(body), "";
      var it := |body|;
      assert body[..it] == body && flat + "" == flat;
      NothingScanned();
      while it > 0
        invariant 0 <= it <= |body|
        invariant flat == Flatten(body[..it]) + seen && Scanned(seen, zero, endOfLine)
      {
        it := it - 1;
        ghost var front := Flatten(body[..it]);
        assert body[..it + 1][..it] == body[..it];
        var r;
        r, zero, endOfLine := ScanFragment(body[it], zero, endOfLine, front, seen);
        if r != Undecided {
          return r.verdict;
        }
        seen := body[it] + seen;
      }
      assert body[..0] == [] && flat == seen;
      return Invalid;
    }

    method ValidateRequest() returns (verdict: Verdict)
      ensures verdict == Judge(headers, Flatten(body), bodySize)
    {
      hide EndsInTerminator, Find;
      var pos := Find(headers, LENGTH_FIELD, 0);
      if pos != -1 {
        var length := FtAtoi(FieldText(headers, pos));
        if ToUint64(length) == bodySize {
          return Valid;
        }
      } else if Find(headers, "chunked", 0) != -1 {
        verdict := ScanBody();
        return;
      } else if Find(headers, LENGTH_FIELD, 0) == -1 && Find(headers, "chunked", 0) == -1 {
        return Valid;
      }
      return Invalid;
    }
  }

  // ---------------------------------------------------------------- server: one buffer per descriptor

  class Server {
    var requestBuffer: map<int, RequestBuf>

    /** The map holds its buffers by value: no two descriptors share one. */
    ghost predicate Valid()
      reads this
    {
      forall i, j :: i in requestBuffer && j in requestBuffer && i != j ==> requestBuffer[i] != requestBuffer[j]
    }

    constructor ()
      ensures Valid() && requestBuffer == map[]
    {
      requestBuffer := map[];
    }

    /** What has been framed for a descriptor; find() failing means nothing yet. */
    function Pending(fd: int): Framed
      reads this, requestBuffer.Values
    {
      if fd in requestBuffer then requestBuffer[fd].Value() else EMPTY
    }

    method UpdateRequestBuffer(fd: int, requestData: string) returns (verdict: Verdict)
      requires Valid()
      modifies this, requestBuffer.Values
      ensures Valid() && requestBuffer.Keys == old(requestBuffer.Keys) + {fd}
      ensures fresh(requestBuffer.Values - old(requestBuffer.Values))
      ensures Pending(fd) == Push(old(Pending(fd)), requestData)
      ensures forall other :: other != fd ==> Pending(other) == old(Pending(other))
      ensures verdict == VerdictOn(Pending(fd))
    {
      hide Push, VerdictOn;
      if fd !in requestBuffer {
        var tmp := new RequestBuf();
        requestBuffer := requestBuffer[fd := tmp];
      }
      var buf := requestBuffer[fd];
      assert forall other :: other in requestBuffer && other != fd ==> requestBuffer[other] != buf;
      verdict := FrameInto(buf, requestData);
    }

    /** The fragment goes to the headers or to the body, and the verdict is on what there is then. */
    static method FrameInto(buf: RequestBuf, requestData: string) returns (verdict: Verdict)
      modifies buf
      ensures buf.Value() == Push(old(buf.Value()), requestData) && verdict == VerdictOn(buf.Value())
    {
      hide PushBody, PushHeader, Judge, Find, Flatten;
      var complete := buf.HeadersComplete();
      if !complete {
        buf.AddHeaderData(requestData);
      } else {
        buf.AddBodyData(requestData);
      }
      complete := buf.HeadersComplete();
      if !complete {
        return Invalid;
      }
      verdict := buf.ValidateRequest();
    }

    method RemoveHandledRequest(usedFd: int)
      requires Valid() && usedFd in requestBuffer
      modifies this
      ensures Valid() && requestBuffer == old(requestBuffer) - {usedFd}
      ensures Pending(usedFd) == EMPTY
    {
      requestBuffer := requestBuffer - {usedFd};
    }
  }

  function VerdictOn(f: Framed): Verdict {
    if HeadersReceived(f.headers) then Judge(f.headers, Flatten(f.body), f.bodySize) else Invalid
  }

  // ---------------------------------------------------------------- every fragmentation of a stream

  /** The state after the fragments have arrived one by one. */
  function Receive(fragments: seq<string>): Framed {
    if fragments == [] then EMPTY
    else Push(Receive(fragments[..|fragments| - 1]), fragments[|fragments| - 1])
  }

  /** Everything up to and including the first blank line, and what follows it. */
  function HeaderPart(stream: string): string {
    var pos := Find(stream, HEADER_END, 0);
    if pos == -1 then stream else stream[..pos + 4]
  }

  function BodyPart(stream: string): string {
    stream[|HeaderPart(stream)|..]
  }

  lemma PushKeepsFraming(f: Framed, stream: string, data: string)
    requires f.headers == HeaderPart(stream) && Flatten(f.body) == BodyPart(stream) && f.bodySize == |BodyPart(stream)|
    requires !HeadersReceived(f.headers) ==> f.body == []
    ensures var g := Push(f, data);
      && g.headers == HeaderPart(stream + data)
      && Flatten(g.body) == BodyPart(stream + data)
      && g.bodySize == |BodyPart(stream + data)|
      && (!HeadersReceived(g.headers) ==> g.body == [])
  {
    hide Find, Flatten;
    var all := stream + data;
    var pos := Find(stream, HEADER_END, 0);
    if pos != -1 {
      FindInPrefix(stream, pos + 4, HEADER_END);
      FindInPrefix(all, |stream|, HEADER_END);
      assert all[..|stream|] == stream;
      FlattenAppend(f.body, data);
      assert all[..pos + 4] == stream[..pos + 4];
      assert all[pos + 4..] == stream[pos + 4..] + data;
    } else {
      assert f.headers == stream;
      var at := Find(all, HEADER_END, 0);
      if at != -1 {
        FindInPrefix(all, at + 4, HEADER_END);
        FlattenAppend(f.body, all[at + 4..]);
      }
    }
  }

  /** However a stream is cut, the buffer holds its header part, its body part and the body's length. */
  lemma {:induction false} FramingFollowsStream(fragments: seq<string>)
    ensures var f, stream := Receive(fragments), Flatten(fragments);
      && f.headers == HeaderPart(stream)
      && Flatten(f.body) == BodyPart(stream)
      && f.bodySize == |BodyPart(stream)|
      && f.headers + Flatten(f.body) == stream
      && (!HeadersReceived(f.headers) ==> f.body == [])
  {
    if fragments == [] {
      assert HeaderPart("") == "";
    } else {
      var before := fragments[..|fragments| - 1];
      FramingFollowsStream(before);
      PushKeepsFraming(Receive(before), Flatten(before), fragments[|fragments| - 1]);
    }
  }

  /** Two ways of cutting the same stream leave the same headers, the same body bytes and the same verdict. */
  lemma VerdictIgnoresFragmentation(a: seq<string>, b: seq<string>)
    requires Flatten(a) == Flatten(b)
    ensures Receive(a).headers == Receive(b).headers
    ensures Flatten(Receive(a).body) == Flatten(Receive(b).body)
    ensures VerdictOn(Receive(a)) == VerdictOn(Receive(b))
  {
    FramingFollowsStream(a);
    FramingFollowsStream(b);
  }

  // ---------------------------------------------------------------- messages that carry their length

  /** The length line as response::generate_content_length prints it. */
  function ContentLengthLine(size: nat): string {
    "Content-Length: " + Decimal(size) + CRLF
  }

  /** Complete headers whose first length field announces the given size. */
  predicate AnnouncesLength(headers: string, before: string, after: string, size: nat) {
    && headers == before + ContentLengthLine(size) + after
    && Find(headers, "Content-Length:", 0) == |before|
    && 4 <= |headers| && Find(headers, "\r\n\r\n", 0) == |headers| - 4
  }

  lemma AnnouncedLengthIsRead(headers: string, before: string, after: string, size: nat)
    requires AnnouncesLength(headers, before, after, size) && size <= INT_MAX
    ensures |before| + 16 <= |headers| && Atoi(FieldText(headers, |before|)) == size
  {
    hide Find, Atoi, Decimal;
    var front, rest := before + "Content-Length: ", Decimal(size) + (CRLF + after);
    assert headers == front + rest by {
      assert front + (Decimal(size) + CRLF) == before + ContentLengthLine(size);
    }
    assert |front| == |before| + 16;
    assert headers[|front|..] == rest;
    AtoiItoa(size, CRLF + after);
  }

  /** Without its first digit a number of two digits or more is a smaller one. */
  lemma {:induction false} TailIsSmaller(n: nat)
    requires n > 0
    ensures DecimalValue(Digits(n)[1..]) < n
  {
    if n < 10 {
      assert Digits(n)[1..] == "";
    } else {
      var front := Digits(n / 10);
      TailIsSmaller(n / 10);
      assert Digits(n)[1..] == front[1..] + [DigitChar(n % 10)];
      assert Digits(n)[1..][..|front| - 1] == front[1..];
    }
  }

  lemma DigitsOfTwo(n: nat)
    requires n >= 10
    ensures |Digits(n)| >= 2
  {
  }

  /** With blanks in front, the number is read as it is. */
  lemma ReadsWhole(blanks: string, size: nat, rest: string)
    requires (forall k :: 0 <= k < |blanks| ==> IsBlank(blanks[k])) && size <= INT_MAX && !IsDigit(At(rest, 0))
    ensures Atoi(blanks + Digits(size) + rest) == size
  {
    hide Atoi, Digits, DecimalValue;
    assert blanks + "" + Digits(size) + rest == blanks + Digits(size) + rest;
    DigitsValue(size);
    AtoiReads(blanks, "", Digits(size), rest);
    InRange(size);
  }

  /** Without its first digit, a number of two digits or more is read as another. */
  lemma ReadsLess(size: nat, rest: string)
    requires 10 <= size <= INT_MAX && !IsDigit(At(rest, 0))
    ensures |Digits(size)| >= 2 && Atoi(Digits(size)[1..] + rest) != size
  {
    hide Atoi;
    DigitsOfTwo(size);
    TailIsSmaller(size);
    hide Digits, DecimalValue;
    var tail := Digits(size)[1..];
    assert "" + "" + tail + rest == tail + rest;
    AtoiReads("", "", tail, rest);
    InRange(DecimalValue(tail));
  }

  lemma ReadsTail(size: nat, rest: string)
    requires size <= INT_MAX && !IsDigit(At(rest, 0))
    ensures Atoi((Digits(size) + rest)[1..]) == size <==> size < 10 && Atoi(rest) == size
  {
    hide Atoi;
    if size < 10 {
      assert (Digits(size) + rest)[1..] == rest;
    } else {
      ReadsLess(size, rest);
      assert (Digits(size) + rest)[1..] == Digits(size)[1..] + rest;
    }
  }

  /** The byte after the colon is skipped unread. With any blanks between the colon and the number the length is
      read as it is; without one its first digit is lost, which is harmless only for a single digit that what
      follows happens to repeat. */
  lemma LengthReadExactlyAfterBlank(headers: string, before: string, gap: string, after: string, size: nat)
    requires headers == before + "Content-Length:" + (gap + Decimal(size) + (CRLF + after))
    requires (forall k :: 0 <= k < |gap| ==> IsBlank(gap[k])) && size <= INT_MAX
    ensures Atoi(FieldText(headers, |before|)) == size <==>
      gap != "" || (size < 10 && Atoi(CRLF + after) == size)
  {
    hide Atoi, Digits;
    var rest := CRLF + after;
    var field := gap + Digits(size) + rest;
    assert headers[|before| + 16..] == field[1..];
    if gap == "" {
      assert field == Digits(size) + rest;
      ReadsTail(size, rest);
    } else {
      assert field[1..] == gap[1..] + Digits(size) + rest;
      ReadsWhole(gap[1..], size, rest);
    }
  }

  lemma AnnouncedVerdict(f: Framed, before: string, after: string, size: nat)
    requires AnnouncesLength(f.headers, before, after, size) && size <= INT_MAX
    ensures VerdictOn(f) == Valid <==> f.bodySize == size
  {
    hide Find, Atoi, Flatten, EndsInTerminator, FieldText;
    AnnouncedLengthIsRead(f.headers, before, after, size);
  }

  /** The headers of a proper or whole prefix of a message are complete once the blank line is in. */
  lemma HeadersOfPrefix(headers: string, body: string, got: string)
    requires 4 <= |headers| && Find(headers, HEADER_END, 0) == |headers| - 4 && got <= headers + body
    ensures HeadersReceived(HeaderPart(got)) <==> |headers| <= |got|
    ensures |headers| <= |got| ==> HeaderPart(got) == headers
  {
    hide Find;
    var message := headers + body;
    assert message[..|headers|] == headers && message[..|got|] == got;
    FindInPrefix(message, |headers|, HEADER_END);
    FindInPrefix(message, |got|, HEADER_END);
    if |headers| <= |got| {
      assert HeaderPart(got) == message[..|headers|];
    }
  }

  /** A message that announces its body's length is judged complete exactly when its last byte has
      arrived, whatever the fragments: never at a proper prefix, and no longer once more bytes follow. */
  lemma CompleteExactlyAtTheEnd(headers: string, before: string, after: string, body: string, more: string,
                                fragments: seq<string>)
    requires AnnouncesLength(headers, before, after, |body|) && |body| <= INT_MAX
    requires Flatten(fragments) <= headers + (body + more)
    ensures VerdictOn(Receive(fragments)) == Valid <==> Flatten(fragments) == headers + body
  {
    hide Find, Flatten, Receive, Judge;
    var got := Flatten(fragments);
    FramingFollowsStream(fragments);
    HeadersOfPrefix(headers, body + more, got);
    if |headers| <= |got| {
      AnnouncedVerdict(Receive(fragments), before, after, |body|);
      assert (headers + (body + more))[..|headers + body|] == headers + body;
    }
  }

  // ---------------------------------------------------------------- chunked messages

  predicate CompleteHeaders(headers: string) {
    4 <= |headers| && Find(headers, "\r\n\r\n", 0) == |headers| - 4
  }

  /** Complete headers without a length field that mention a chunked body. */
  predicate ChunkedHeaders(headers: string) {
    CompleteHeaders(headers) && Find(headers, "Content-Length:", 0) == -1 && Find(headers, "chunked", 0) != -1
  }

  /** Complete headers that announce no body. */
  predicate BareHeaders(headers: string) {
    CompleteHeaders(headers) && Find(headers, "Content-Length:", 0) == -1 && Find(headers, "chunked", 0) == -1
  }

  /** What is framed of the first bytes of a message. */
  lemma FrameOfPrefix(headers: string, rest: string, fragments: seq<string>)
    requires CompleteHeaders(headers) && Flatten(fragments) <= headers + rest
    ensures var got, f := Flatten(fragments), Receive(fragments);
      if |headers| > |got| then VerdictOn(f) == Invalid
      else HeadersReceived(f.headers) && f.headers == headers && Flatten(f.body) == got[|headers|..]
           && f.bodySize == |got| - |headers|
  {
    hide Find, Flatten, Receive, Judge;
    FramingFollowsStream(fragments);
    HeadersOfPrefix(headers, rest, Flatten(fragments));
  }

  /** At each prefix of a chunked message, the verdict is the terminator test on the body bytes so far. */
  lemma ChunkedPrefixVerdict(headers: string, rest: string, fragments: seq<string>)
    requires ChunkedHeaders(headers) && Flatten(fragments) <= headers + rest
    ensures var got := Flatten(fragments);
      VerdictOn(Receive(fragments)) == Valid <==> |headers| <= |got| && EndsInTerminator(got[|headers|..])
  {
    hide Find, Flatten, Receive, EndsInTerminator, HeadersReceived;
    FrameOfPrefix(headers, rest, fragments);
  }

  /** A message that announces no body is judged complete from its blank line on, whatever follows. */
  lemma BarePrefixVerdict(headers: string, rest: string, fragments: seq<string>)
    requires BareHeaders(headers) && Flatten(fragments) <= headers + rest
    ensures VerdictOn(Receive(fragments)) == Valid <==> |headers| <= |Flatten(fragments)|
  {
    hide Find, Flatten, Receive, EndsInTerminator, HeadersReceived;
    FrameOfPrefix(headers, rest, fragments);
  }

  /** Without a length field and with "chunked" in the headers, the verdict is the terminator test on the body. */
  lemma ChunkedVerdict(fragments: seq<string>)
    requires var h := HeaderPart(Flatten(fragments));
      HeadersReceived(h) && Find(h, LENGTH_FIELD, 0) == -1 && Find(h, "chunked", 0) != -1
    ensures VerdictOn(Receive(fragments)) == Valid <==> EndsInTerminator(BodyPart(Flatten(fragments)))
  {
    FramingFollowsStream(fragments);
  }

  lemma LastChunkIsTerminator(data: string)
    ensures EndsInTerminator(data + "0" + HEADER_END)
  {
    var s := data + "0" + HEADER_END;
    assert s[|s| - 5..] == "0\r\n\r\n";
    assert "0\r\n\r\n"[1..] == "\r\n\r\n" && "\r\n\r\n"[1..] == "\n\r\n" && "\n\r\n"[1..] == "\r\n" && "\r\n"[1..] == "\n";
  }
}
