/** How one response reaches the browser: the counters of header_handler.cpp and the per-client phases of
    webserver::run, for a request whose file is only read (a plain GET, or an error page). */
module ResponsePump {
  import opened Strings
  import opened Numbers
  import opened RequestFraming

  const NO_CONTENT: int := 204
  const READ_SIZE: nat := 6000000

  // ---------------------------------------------------------------- one pass, as a step on values

  /** The fields that the pump reads and writes, the bytes written to the browser, and the header
      sections built since the request was handled. */
  datatype Pump = Pump(status: int, head: bool, file: string, responseFile: string, response: string,
                       bytesRead: nat, bytesWritten: nat, responseSize: nat, readFromFile: bool,
                       fileOpen: bool, fileWatched: bool, clientWatched: bool, clientWritable: bool,
                       wire: string, built: seq<string>)

  /** What select, read and write do in one pass, and the two halves of the header section that do not
      depend on the file (status line, date, type, language). */
  datatype Pass = Pass(fileReady: bool, writeReady: bool, readCount: nat, writeCount: nat, before: string, after: string)

  /** reset_handler; the read counter is not among the fields it clears. */
  function Reset(p: Pump): Pump {
    p.(status := 200, head := false, responseFile := "", response := "", bytesWritten := 0, responseSize := 0,
       readFromFile := false)
  }

  function ReadFile(p: Pump, count: nat): Pump
    requires p.bytesRead + count <= |p.file|
  {
    p.(responseFile := p.responseFile + p.file[p.bytesRead..p.bytesRead + count], bytesRead := p.bytesRead + count)
  }

  /** The header section: the size is narrowed to int before it is printed. */
  function Head(size: nat, before: string, after: string): string {
    before + "Content-Length: " + Decimal(ToInt32(size)) + CRLF + after
  }

  function Create(p: Pump, before: string, after: string): Pump {
    var head := Head(|p.responseFile|, before, after);
    var response := p.response + head + (if p.head then "" else p.responseFile);
    p.(response := response, responseSize := |response|, built := p.built + [head])
  }

  function Send(p: Pump, count: nat): Pump
    requires p.bytesWritten + count <= |p.response|
  {
    var q := p.(wire := p.wire + p.response[p.bytesWritten..p.bytesWritten + count], bytesWritten := p.bytesWritten + count);
    if q.bytesWritten == |q.response| then Reset(q) else q
  }

  /** The file is still to be read. */
  predicate Wanted(p: Pump) {
    p.status != NO_CONTENT && !p.readFromFile
  }

  /** read returns at least a byte before the end of the file and none at the end. */
  predicate CanRead(p: Pump, count: nat) {
    count <= READ_SIZE && p.bytesRead + count <= |p.file| && (count == 0 <==> p.bytesRead == |p.file|)
  }

  /** The file-reading phase: reading past the end of the file closes it. */
  function ReadPhase(p: Pump, i: Pass): Pump {
    if !i.fileReady || (Wanted(p) && !CanRead(p, i.readCount)) then p
    else if Wanted(p) && i.readCount != 0 then ReadFile(p, i.readCount)
    else (if Wanted(p) then ReadFile(p, 0).(bytesRead := 0, readFromFile := true) else p)
           .(fileWatched := false, clientWritable := true)
  }

  /** After a read that returned something the pass is over. */
  predicate ReadSomething(p: Pump, i: Pass) {
    i.fileReady && Wanted(p) && i.readCount != 0
  }

  /** The response is built when nothing of it has been written yet. */
  function Built(p: Pump, i: Pass): Pump {
    if p.bytesWritten == 0 then Create(p, i.before, i.after) else p
  }

  /** write sends at least one byte and no more than there is. */
  predicate CanWrite(p: Pump, i: Pass) {
    1 <= i.writeCount && Built(p, i).bytesWritten + i.writeCount <= |Built(p, i).response|
  }

  /** The sending phase; when the response is complete the client waits for its next request. */
  function SendPhase(p: Pump, i: Pass): Pump {
    if !i.writeReady || !CanWrite(p, i) then p
    else
      var q := Send(Built(p, i), i.writeCount);
      if q.bytesWritten < q.responseSize then q
      else q.(bytesWritten := 0, clientWritable := false, fileOpen := false, fileWatched := false, clientWatched := true)
  }

  function Step(p: Pump, i: Pass): Pump {
    if ReadSomething(p, i) then ReadPhase(p, i) else SendPhase(ReadPhase(p, i), i)
  }

  /** select reports only watched descriptors, and the system calls move at least a byte. */
  predicate Enabled(p: Pump, i: Pass) {
    && (i.fileReady ==> p.fileOpen && p.fileWatched && (Wanted(p) ==> CanRead(p, i.readCount)))
    && (i.writeReady ==> p.clientWritable && (!ReadSomething(p, i) ==> CanWrite(ReadPhase(p, i), i)))
  }

  /** A pass in which something was ready. */
  predicate Productive(i: Pass) {
    i.fileReady || i.writeReady
  }

  // ---------------------------------------------------------------- every schedule of passes

  /** A request has been handled: parse_request reset the handler, the file (if any) is open and watched. */
  function Begin(p: Pump, status: int, head: bool, file: string, hasFile: bool): Pump {
    Reset(p).(status := status, head := head, file := file, fileOpen := hasFile, fileWatched := hasFile,
              clientWatched := false, clientWritable := !hasFile, built := [])
  }

  function Run(p: Pump, passes: seq<Pass>): Pump {
    if passes == [] then p else Step(Run(p, passes[..|passes| - 1]), passes[|passes| - 1])
  }

  predicate PossibleRun(p: Pump, passes: seq<Pass>) {
    passes == [] ||
    (var before := passes[..|passes| - 1];
     PossibleRun(p, before) && Enabled(Run(p, before), passes[|passes| - 1]) && Productive(passes[|passes| - 1]))
  }

  /** What the request asks for and where the wire stood when it was handled. */
  datatype Request = Request(status: int, head: bool, file: string, hasFile: bool, wire: string)

  /** The file's bytes, when a file is read at all. */
  function Body(r: Request): (body: string)
    ensures body == if r.hasFile && r.status != 204 then r.file else ""
  {
    if r.hasFile && r.status != NO_CONTENT then r.file else ""
  }

  function SentBody(r: Request): string {
    if r.head then "" else Body(r)
  }

  predicate Reading(p: Pump, r: Request) {
    && r.hasFile && p.status == r.status && p.head == r.head && p.file == r.file && p.wire == r.wire && p.built == []
    && p.bytesRead <= |p.file| && p.responseFile == p.file[..p.bytesRead] && (r.status == NO_CONTENT ==> p.bytesRead == 0)
    && p.response == "" && p.bytesWritten == 0
    && !p.readFromFile && p.fileOpen && p.fileWatched && !p.clientWritable && !p.clientWatched
  }

  predicate ReadyToSend(p: Pump, r: Request) {
    && p.status == r.status && p.head == r.head && p.wire == r.wire && p.built == []
    && p.responseFile == Body(r) && p.response == "" && p.bytesRead == 0 && p.bytesWritten == 0
    && !p.fileWatched && p.clientWritable && !p.clientWatched
  }

  predicate Sending(p: Pump, r: Request) {
    && |p.built| == 1 && p.response == p.built[0] + SentBody(r) && p.responseSize == |p.response|
    && 0 < p.bytesWritten < |p.response| && p.wire == r.wire + p.response[..p.bytesWritten]
    && p.bytesRead == 0 && !p.fileWatched && p.clientWritable && !p.clientWatched
  }

  /** One response is on the wire, and both counters are back to zero for the next request. */
  predicate Done(p: Pump, r: Request) {
    && |p.built| == 1 && p.wire == r.wire + p.built[0] + SentBody(r)
    && p.bytesRead == 0 && p.bytesWritten == 0
    && !p.fileOpen && !p.fileWatched && !p.clientWritable && p.clientWatched
  }

  predicate OnCourse(p: Pump, r: Request) {
    Reading(p, r) || ReadyToSend(p, r) || Sending(p, r) || Done(p, r)
  }

  /** How far the request has come; every productive pass adds at least one. */
  function Progress(p: Pump, r: Request): int {
    (if Reading(p, r) then p.bytesRead else |Body(r)| + 1) + |p.wire| - |r.wire|
  }

  lemma BeginIsOnCourse(p: Pump, r: Request)
    requires p.bytesRead == 0 && p.wire == r.wire
    ensures var q := Begin(p, r.status, r.head, r.file, r.hasFile);
      (Reading(q, r) || ReadyToSend(q, r)) && Progress(q, r) >= 0
  {
  }

  lemma ReadingStep(p: Pump, r: Request, i: Pass)
    requires Reading(p, r) && Enabled(p, i) && Productive(i)
    ensures var q := Step(p, i);
      (Reading(q, r) || ReadyToSend(q, r)) && Progress(q, r) > Progress(p, r) && q.built == p.built
  {
    var q := Step(p, i);
    assert i.fileReady && !i.writeReady;
    if ReadSomething(p, i) {
      assert q.responseFile == p.file[..q.bytesRead];
    } else {
      assert p.file[..|p.file|] == p.file;
      assert Wanted(p) ==> ReadFile(p, 0).responseFile == p.file;
    }
  }

  /** Built exactly once: at the first write. */
  predicate Composed(b: Pump, r: Request) {
    && |b.built| == 1 && b.response == b.built[0] + SentBody(r) && b.responseSize == |b.response| && b.response != ""
    && b.bytesWritten < |b.response| && b.wire == r.wire + b.response[..b.bytesWritten]
    && b.bytesRead == 0 && !b.fileWatched && b.clientWritable && !b.clientWatched
  }

  lemma BuiltIsComposed(p: Pump, r: Request, i: Pass)
    requires ReadyToSend(p, r) || Sending(p, r)
    ensures Composed(Built(p, i), r)
    ensures Built(p, i).wire == p.wire
    ensures Built(p, i).built == if p.built == [] then [Head(|Body(r)|, i.before, i.after)] else p.built
  {
    hide Decimal, ToInt32;
    if ReadyToSend(p, r) {
      var head := Head(|p.responseFile|, i.before, i.after);
      assert head != "";
      assert "" + head + SentBody(r) == head + SentBody(r);
      assert Built(p, i).built == [head];
      assert r.wire + Built(p, i).response[..0] == r.wire;
    }
  }

  lemma SendComposed(b: Pump, r: Request, n: nat)
    requires Composed(b, r) && 1 <= n && b.bytesWritten + n <= |b.response|
    ensures Send(b, n).wire == r.wire + b.response[..b.bytesWritten + n]
    ensures b.bytesWritten + n == |b.response| ==> Send(b, n).wire == r.wire + b.built[0] + SentBody(r)
  {
    var m := b.bytesWritten + n;
    assert b.response[..m] == b.response[..b.bytesWritten] + b.response[b.bytesWritten..m];
    assert m == |b.response| ==> b.response[..m] == b.response;
  }

  lemma SendingStep(p: Pump, r: Request, i: Pass)
    requires (ReadyToSend(p, r) || Sending(p, r)) && Enabled(p, i) && Productive(i)
    ensures var q := Step(p, i);
      && (Sending(q, r) || Done(q, r)) && Progress(q, r) > Progress(p, r)
      && q.built == if p.built == [] then [Head(|Body(r)|, i.before, i.after)] else p.built
  {
    hide Built, SentBody, Body, Head;
    assert i.writeReady && !i.fileReady && ReadPhase(p, i) == p;
    BuiltIsComposed(p, r, i);
    SendComposed(Built(p, i), r, i.writeCount);
  }

  /** The header section comes from one of the passes and announces the length of the file's bytes. */
  predicate HeadOf(head: string, r: Request, passes: seq<Pass>) {
    exists k :: 0 <= k < |passes| && head == Head(|Body(r)|, passes[k].before, passes[k].after)
  }

  predicate BuiltFrom(built: seq<string>, r: Request, passes: seq<Pass>) {
    built == [] || HeadOf(built[0], r, passes)
  }

  lemma BuiltFromMore(built: seq<string>, r: Request, passes: seq<Pass>, i: Pass)
    ensures BuiltFrom(built, r, passes) ==> BuiltFrom(built, r, passes + [i])
    ensures BuiltFrom([Head(|Body(r)|, i.before, i.after)], r, passes + [i])
  {
    hide Head, Body;
    assert (passes + [i])[|passes|] == i;
    if built != [] && HeadOf(built[0], r, passes) {
      var k :| 0 <= k < |passes| && built[0] == Head(|Body(r)|, passes[k].before, passes[k].after);
      assert (passes + [i])[k] == passes[k];
    }
  }

  /** Every schedule of short reads and partial writes puts exactly one response on the wire, built once
      and ending with exactly the file's bytes; until then it only moves forward, so it cannot go on
      without finishing, and at the end both counters are zero. */
  lemma {:induction false} EveryScheduleDelivers(p: Pump, r: Request, passes: seq<Pass>)
    requires p.bytesRead == 0 && p.wire == r.wire
    requires PossibleRun(Begin(p, r.status, r.head, r.file, r.hasFile), passes)
    ensures var q := Run(Begin(p, r.status, r.head, r.file, r.hasFile), passes);
      OnCourse(q, r) && |passes| <= Progress(q, r) && BuiltFrom(q.built, r, passes)
  {
    hide Step, Enabled, Productive, Reading, ReadyToSend, Sending, Done, Progress, BuiltFrom, Head;
    var start := Begin(p, r.status, r.head, r.file, r.hasFile);
    if passes == [] {
      BeginIsOnCourse(p, r);
      NothingBuilt(r);
    } else {
      hide Begin;
      var before := passes[..|passes| - 1];
      EveryScheduleDelivers(p, r, before);
      var q, i := Run(start, before), passes[|passes| - 1];
      BuiltFromMore(q.built, r, before, i);
      assert passes == before + [i];
      if Reading(q, r) {
        ReadingStep(q, r, i);
      } else if Done(q, r) {
        NothingAfterDone(q, r, i);
      } else {
        SendingStep(q, r, i);
      }
    }
  }

  lemma HeadIs(size: nat, before: string, after: string)
    ensures Head(size, before, after) == before + "Content-Length: " + Decimal(ToInt32(size)) + "\r\n" + after
  {
  }

  lemma NothingBuilt(r: Request)
    ensures BuiltFrom([], r, [])
  {
  }

  lemma NothingAfterDone(p: Pump, r: Request, i: Pass)
    requires Done(p, r)
    ensures !(Enabled(p, i) && Productive(i))
  {
  }

  /** The pump never gets stuck: until the response is out, some productive pass is possible. */
  lemma SomePassIsPossible(p: Pump, r: Request) returns (i: Pass)
    requires OnCourse(p, r) && !Done(p, r)
    ensures Enabled(p, i) && Productive(i)
  {
    if Reading(p, r) {
      i := Pass(true, false, if p.bytesRead == |p.file| then 0 else 1, 0, "", "");
    } else {
      i := Pass(false, true, 0, 1, "", "");
    }
  }

  /** More passes than there are bytes to read and to send are not possible without finishing: so many passes
      force the response out. */
  lemma PassesAreBounded(p: Pump, r: Request, passes: seq<Pass>)
    requires p.bytesRead == 0 && p.wire == r.wire
    requires PossibleRun(Begin(p, r.status, r.head, r.file, r.hasFile), passes)
    ensures var q := Run(Begin(p, r.status, r.head, r.file, r.hasFile), passes);
      && OnCourse(q, r) && BuiltFrom(q.built, r, passes)
      && (q.built == [] ==> |passes| <= |Body(r)| + 1)
      && (q.built != [] ==> |passes| <= |Body(r)| + |q.built[0]| + |SentBody(r)| + (if Done(q, r) then 1 else 0))
  {
    hide Begin, Run, PossibleRun, BuiltFrom;
    EveryScheduleDelivers(p, r, passes);
  }

  // ---------------------------------------------------------------- one request after another

  /** A request and the passes it takes until its client is watched for the next one. */
  datatype Exchange = Exchange(status: int, head: bool, file: string, hasFile: bool, passes: seq<Pass>)

  function RequestOf(e: Exchange, wire: string): Request {
    Request(e.status, e.head, e.file, e.hasFile, wire)
  }

  function Serve(p: Pump, e: Exchange): Pump {
    Run(Begin(p, e.status, e.head, e.file, e.hasFile), e.passes)
  }

  function Session(p: Pump, es: seq<Exchange>): Pump {
    if es == [] then p else Serve(Session(p, es[..|es| - 1]), es[|es| - 1])
  }

  predicate PossibleSession(p: Pump, es: seq<Exchange>) {
    es == [] ||
    (var before, e := Session(p, es[..|es| - 1]), es[|es| - 1];
     PossibleSession(p, es[..|es| - 1]) && PossibleRun(Begin(before, e.status, e.head, e.file, e.hasFile), e.passes)
     && Serve(before, e).clientWatched)
  }

  /** The header sections of a session, one per request, each followed by what that request asked for. */
  function Messages(heads: seq<string>, es: seq<Exchange>): seq<string>
    requires |heads| == |es|
  {
    seq(|es|, k requires 0 <= k < |es| => heads[k] + SentBody(RequestOf(es[k], "")))
  }

  /** One exchange, from a read counter of zero: one response on the wire, and the counter at zero again. */
  lemma ExchangeDelivers(p: Pump, e: Exchange) returns (head: string)
    requires p.bytesRead == 0 && Serve(p, e).clientWatched
    requires PossibleRun(Begin(p, e.status, e.head, e.file, e.hasFile), e.passes)
    ensures var q := Serve(p, e);
      && q.wire == p.wire + (head + SentBody(RequestOf(e, ""))) && q.bytesRead == 0 && q.bytesWritten == 0
      && HeadOf(head, RequestOf(e, ""), e.passes)
  {
    hide Run, Begin, PossibleRun, Head;
    var r, q := RequestOf(e, p.wire), Serve(p, e);
    EveryScheduleDelivers(p, r, e.passes);
    assert Done(q, r);
    head := q.built[0];
    assert Body(r) == Body(RequestOf(e, ""));
    assert p.wire + head + SentBody(r) == p.wire + (head + SentBody(r));
  }

  /** Over a whole session the wire carries one response per request, in order, each with a header section
      that announces its file's length and each ending with its file; the read counter is zero at every
      request although nothing but the end of a file clears it. */
  lemma {:induction false} SessionDelivers(p: Pump, es: seq<Exchange>) returns (heads: seq<string>)
    requires p.bytesRead == 0 && p.bytesWritten == 0 && PossibleSession(p, es)
    ensures |heads| == |es|
    ensures Session(p, es).wire == p.wire + Flatten(Messages(heads, es))
    ensures forall k :: 0 <= k < |es| ==> HeadOf(heads[k], RequestOf(es[k], ""), es[k].passes)
    ensures Session(p, es).bytesRead == 0 && Session(p, es).bytesWritten == 0
  {
    hide Begin, PossibleRun, Serve, Flatten, HeadOf, SentBody, RequestOf;
    if es == [] {
      heads := [];
      FlattenNone();
      assert Messages([], es) == [] && p.wire + "" == p.wire;
    } else {
      var init, e := es[..|es| - 1], es[|es| - 1];
      var before := Session(p, init);
      var earlier := SessionDelivers(p, init);
      var head := ExchangeDelivers(before, e);
      heads := earlier + [head];
      var last := head + SentBody(RequestOf(e, ""));
      assert Messages(heads, es) == Messages(earlier, init) + [last];
      FlattenAppend(Messages(earlier, init), last);
      assert p.wire + Flatten(Messages(earlier, init)) + last == p.wire + (Flatten(Messages(earlier, init)) + last);
    }
  }

  lemma FlattenNone()
    ensures Flatten([]) == ""
  {
  }

  /** A response with a body announces its length, so by the server's own framing it is complete exactly
      when its last byte has arrived, however the wire cuts it. */
  lemma ResponseIsSelfDelimiting(p: Pump, r: Request, before: string, after: string, fragments: seq<string>)
    requires Done(p, r) && !r.head && |Body(r)| <= INT_MAX
    requires p.built[0] == Head(|Body(r)|, before, after)
    requires Find(p.built[0], LENGTH_FIELD, 0) == |before|
    requires 4 <= |p.built[0]| && Find(p.built[0], HEADER_END, 0) == |p.built[0]| - 4
    requires Flatten(fragments) <= p.built[0] + Body(r)
    ensures VerdictOn(Receive(fragments)) == Valid <==> r.wire + Flatten(fragments) == p.wire
  {
    hide Flatten, Receive, VerdictOn, Find, ToInt32, Decimal;
    InRange(|Body(r)|);
    assert p.built[0] == before + ContentLengthLine(|Body(r)|) + after by {
      var line := "Content-Length: " + Decimal(|Body(r)|) + CRLF;
      assert before + line == before + "Content-Length: " + Decimal(|Body(r)|) + CRLF;
    }
    assert p.built[0] + (Body(r) + "") == p.built[0] + Body(r);
    CompleteExactlyAtTheEnd(p.built[0], before, after, Body(r), "", fragments);
    assert p.wire == r.wire + (p.built[0] + Body(r));
  }

  // ---------------------------------------------------------------- header_handler

  class HeaderHandler {
    var status: int
    var head: bool
    var responseFile: string
    var response: string
    var bytesRead: nat
    var bytesWritten: nat
    var responseSize: nat
    var readFromFile: bool

    constructor ()
      ensures status == 200 && responseFile == "" && response == "" && bytesRead == 0 && bytesWritten == 0
    {
      status, head, responseFile, response := 200, false, "", "";
      bytesRead, bytesWritten, responseSize, readFromFile := 0, 0, 0, false;
    }

    /** lseek to the read counter, then read: any number of bytes from one up, and none only at the end. */
    method ReadRequestedFile(file: string) returns (ret: nat)
      requires bytesRead <= |file|
      modifies this`responseFile, this`bytesRead
      ensures ret <= 6000000 && old(bytesRead) + ret <= |file| && (ret == 0 <==> old(bytesRead) == |file|)
      ensures bytesRead == old(bytesRead) + ret
      ensures responseFile == old(responseFile) + file[old(bytesRead)..bytesRead]
    {
      ret := 0;
      if bytesRead < |file| {
        ret :| 1 <= ret <= READ_SIZE && bytesRead + ret <= |file|;
      }
      responseFile := responseFile + file[bytesRead..bytesRead + ret];
      bytesRead := bytesRead + ret;
    }

    /** response::generate_content_length. */
    method GenerateContentLength(requestedFile: string) returns (line: string)
      ensures line == "Content-Length: " + Decimal(ToInt32(|requestedFile|)) + CRLF
    {
      var tmp := FtItoa(ToInt32(|requestedFile|));
      line := "Content-Length: " + tmp[..tmp.Length - 1] + CRLF;
    }

    method CreateResponse(before: string, after: string)
      modifies this`response, this`responseSize
      ensures response == old(response) + (before + "Content-Length: " + Decimal(ToInt32(|responseFile|)) + CRLF + after)
                          + (if head then "" else responseFile)
      ensures responseSize == |response|
    {
      hide Decimal, ToInt32;
      var line := GenerateContentLength(responseFile);
      assert before + line + after == before + "Content-Length: " + Decimal(ToInt32(|responseFile|)) + CRLF + after;
      response := response + (before + line + after);
      if !head {
        response := response + responseFile;
      }
      responseSize := |response|;
    }

    method ResetHandler()
      modifies this
      ensures status == 200 && !head && responseFile == "" && response == "" && bytesWritten == 0 && responseSize == 0
      ensures !readFromFile && bytesRead == old(bytesRead)
    {
      status, bytesWritten, responseSize, readFromFile := 200, 0, 0, false;
      head, response, responseFile := false, "", "";
    }

    /** write takes any number of bytes from one up; the complete response resets the handler. */
    method SendResponse() returns (sent: string)
      requires bytesWritten < |response|
      modifies this
      ensures 1 <= |sent| && old(bytesWritten) + |sent| <= |old(response)|
      ensures sent == old(response)[old(bytesWritten)..old(bytesWritten) + |sent|]
      ensures bytesRead == old(bytesRead)
      ensures if old(bytesWritten) + |sent| < |old(response)|
              then bytesWritten == old(bytesWritten) + |sent| && response == old(response) && responseSize == old(responseSize)
                   && responseFile == old(responseFile) && status == old(status) && head == old(head)
                   && readFromFile == old(readFromFile)
              else status == 200 && !head && responseFile == "" && response == "" && bytesWritten == 0
                   && responseSize == 0 && !readFromFile
    {
      var ret :| 1 <= ret && bytesWritten + ret <= |response|;
      sent := response[bytesWritten..bytesWritten + ret];
      bytesWritten := bytesWritten + ret;
      if bytesWritten == |response| {
        ResetHandler();
      }
    }
  }

  // ---------------------------------------------------------------- one client in webserver::run

  class Connection {
    const handler: HeaderHandler
    const clientFd: int
    var fileFd: int
    var file: string
    var readBuffer: set<int>
    var writeBuffer: set<int>
    ghost var wire: string
    ghost var built: seq<string>

    constructor (clientFd: int)
      requires clientFd != -1
      ensures Idle() && fresh(handler) && wire == ""
    {
      handler := new HeaderHandler();
      this.clientFd := clientFd;
      fileFd, file, readBuffer, writeBuffer, wire, built := -1, "", {clientFd}, {}, "", [];
    }

    /** Only this client's descriptors are in the two sets. Its file is only read, and no longer once the
        client is watched for writing. */
    ghost predicate Valid()
      reads this, handler
    {
      && clientFd != -1 && clientFd != fileFd && -1 !in readBuffer
      && readBuffer <= {clientFd, fileFd} && writeBuffer <= {clientFd}
      && (clientFd in writeBuffer ==> fileFd !in readBuffer)
      && (handler.bytesWritten == 0 || handler.bytesWritten < |handler.response|)
      && handler.bytesRead <= |file|
    }

    ghost function State(): Pump
      reads this, handler
    {
      Pump(handler.status, handler.head, file, handler.responseFile, handler.response, handler.bytesRead,
           handler.bytesWritten, handler.responseSize, handler.readFromFile,
           fileFd != -1, fileFd in readBuffer, clientFd in readBuffer, clientFd in writeBuffer, wire, built)
    }

    /** The previous response is out, the next request has been parsed and its file opened; -1 when there is none. */
    method HandleRequest(status: int, head: bool, newFd: int, content: string)
      requires Valid() && handler.bytesRead == 0 && fileFd == -1
      requires newFd != clientFd && clientFd !in writeBuffer
      modifies this, handler
      ensures Valid() && State() == Begin(old(State()), status, head, content, newFd != -1)
    {
      handler.ResetHandler();
      handler.status, handler.head := status, head;
      fileFd, file := newFd, content;
      built := [];
      readBuffer := readBuffer - {clientFd};
      if fileFd != -1 {
        readBuffer := readBuffer + {fileFd};
      } else {
        writeBuffer := writeBuffer + {clientFd};
      }
    }

    /** The file-reading phase; a read that returned something ends the pass. */
    method ReadingPhase(read: set<int>) returns (ret: nat)
      requires Valid() && read <= readBuffer
      modifies this, handler
      ensures Valid()
      ensures var i := Pass(old(fileFd) in read, false, ret, 0, "", "");
        Enabled(old(State()), i) && State() == ReadPhase(old(State()), i)
      ensures ret != 0 ==> old(fileFd) in read && Wanted(old(State()))
    {
      ret := 0;
      if fileFd in read {
        if handler.status != NO_CONTENT && !handler.readFromFile {
          ret := handler.ReadRequestedFile(file);
          if ret != 0 {
            return;
          }
          handler.bytesRead := 0;
          handler.readFromFile := true;
        }
        readBuffer := readBuffer - {fileFd};
        writeBuffer := writeBuffer + {clientFd};
      }
    }

    /** create_response, unless part of the response is already out. */
    method BuildOnce(before: string, after: string)
      requires Valid()
      modifies this`built, handler
      ensures Valid() && handler.bytesWritten < |handler.response|
      ensures State() == Built(old(State()), Pass(false, true, 0, 0, before, after))
    {
      hide Decimal, ToInt32;
      if handler.bytesWritten == 0 {
        ghost var head := Head(|handler.responseFile|, before, after);
        handler.CreateResponse(before, after);
        built := built + [head];
        assert |handler.response| > 0;
      }
    }

    /** send_response. */
    method SendSome() returns (count: nat)
      requires Valid() && handler.bytesWritten < |handler.response|
      modifies this`wire, handler
      ensures Valid() && 1 <= count && old(handler.bytesWritten) + count <= |old(handler.response)|
      ensures State() == Send(old(State()), count)
    {
      var sent := handler.SendResponse();
      wire := wire + sent;
      count := |sent|;
    }

    /** The sending phase; once the response is out the descriptors are handed back. */
    method SendingPhase(before: string, after: string) returns (count: nat)
      requires Valid() && clientFd in writeBuffer
      modifies this, handler
      ensures Valid()
      ensures var i := Pass(false, true, 0, count, before, after);
        CanWrite(old(State()), i) && State() == SendPhase(old(State()), i)
    {
      hide Create, Send;
      BuildOnce(before, after);
      count := SendSome();
      if handler.bytesWritten < handler.responseSize {
        return;
      }
      handler.bytesWritten := 0;
      writeBuffer := writeBuffer - {clientFd};
      fileFd := -1;
      readBuffer := readBuffer + {clientFd};
    }

    /** One pass of the client loop for an active client whose request has been handled. */
    method ServePass(read: set<int>, write: set<int>, before: string, after: string) returns (ghost i: Pass)
      requires Valid() && read <= readBuffer && write <= writeBuffer && clientFd !in read
      modifies this, handler
      ensures Valid() && i.fileReady == (old(fileFd) in read) && i.writeReady == (clientFd in write)
      ensures i.before == before && i.after == after
      ensures Enabled(old(State()), i) && State() == Step(old(State()), i)
    {
      hide Built, CanWrite, SendPhase, CanRead;
      ghost var fileReady, start := fileFd in read, State();
      var ret := ReadingPhase(read);
      ghost var middle := State();
      i := Pass(fileReady, clientFd in write, ret, 0, before, after);
      if ret != 0 {
        return;
      }
      if clientFd in write {
        var count := SendingPhase(before, after);
        i := i.(writeCount := count);
        SameSend(middle, Pass(false, true, 0, count, before, after), i);
      } else {
        NoSend(middle, i);
      }
      assert ReadPhase(start, i) == middle;
      assert !ReadSomething(start, i);
      assert i.writeReady ==> CanWrite(middle, i);
    }

    /** The response to the previous request is out and the client is watched for the next one. */
    ghost predicate Idle()
      reads this, handler
    {
      && Valid() && handler.bytesRead == 0 && handler.bytesWritten == 0
      && fileFd == -1 && clientFd in readBuffer && clientFd !in writeBuffer
    }

    /** The passes of the client loop from a handled request to its complete response. In each of them select
        reports at least one watched descriptor; which ones is the environment's choice. */
    method ServeRequest(a: Asked) returns (ghost passes: seq<Pass>)
      requires Idle() && a.fd != clientFd
      modifies this, handler
      ensures Idle() && PossibleRun(Handled(old(State()), a), passes) && State() == Run(Handled(old(State()), a), passes)
      ensures wire == old(wire) + Reply(a)
      ensures a.fd != -1 && a.status != 204 ==>
        wire == old(wire) + a.before + "Content-Length: " + Decimal(ToInt32(|a.content|)) + "\r\n" + a.after
                          + (if a.head then "" else a.content)
      ensures a.fd == -1 || a.status == 204 ==>
        wire == old(wire) + a.before + "Content-Length: 0\r\n" + a.after
    {
      hide Run, Begin, PossibleRun, OnCourse, Done, BuiltFrom, Head, Step, Enabled;
      ghost var p, r := State(), RequestFor(a, wire);
      HandleRequest(a.status, a.head, a.fd, a.content);
      passes := [];
      NoPasses(Handled(p, a));
      PassesAreBounded(p, r, passes);
      while clientFd !in readBuffer
        invariant Valid() && PossibleRun(Handled(p, a), passes) && State() == Run(Handled(p, a), passes)
        invariant forall k :: 0 <= k < |passes| ==> passes[k].before == a.before && passes[k].after == a.after
        invariant OnCourse(State(), r) && BuiltFrom(State().built, r, passes)
        invariant |passes| <= Limit(a, r)
        decreases Limit(a, r) - |passes|
      {
        NotDone(State(), r);
        ghost var possible := SomePassIsPossible(State(), r);
        ReadyIsWatched(State(), possible);
        var fileReady, writeReady :| (fileReady ==> fileFd in readBuffer) && (writeReady ==> clientFd in writeBuffer)
                                     && (fileReady || writeReady);
        ghost var before := passes;
        PassesAreBounded(p, r, before);
        WithinLimit(State(), a, r, before);
        ghost var i := ServePass(if fileReady then {fileFd} else {}, if writeReady then {clientFd} else {}, a.before, a.after);
        passes := before + [i];
        RunNext(Handled(p, a), before, i);
        PassesAreBounded(p, r, passes);
      }
      WatchedIsDone(State(), r);
      BuiltWithReply(State(), a, r, passes);
      ReplyIs(a, p.wire);
    }
  }

  // ---------------------------------------------------------------- a connection and its requests

  /** What a request asks for: the status, whether only the head is wanted, the descriptor and the contents
      of its file (-1 when there is none), and the header lines around the length line. */
  datatype Asked = Asked(status: int, head: bool, fd: int, content: string, before: string, after: string)

  function RequestFor(a: Asked, wire: string): Request {
    Request(a.status, a.head, a.content, a.fd != -1, wire)
  }

  function Handled(p: Pump, a: Asked): Pump {
    Begin(p, a.status, a.head, a.content, a.fd != -1)
  }

  /** What the client is to receive: the header section with the length of the file, and the file. */
  function Reply(a: Asked): string {
    Head(|Body(RequestFor(a, ""))|, a.before, a.after) + SentBody(RequestFor(a, ""))
  }

  /** The reply spelled out. */
  lemma ReplyIs(a: Asked, wire: string)
    ensures a.fd != -1 && a.status != 204 ==>
      wire + Reply(a) == wire + a.before + "Content-Length: " + Decimal(ToInt32(|a.content|)) + "\r\n" + a.after
                              + (if a.head then "" else a.content)
    ensures a.fd == -1 || a.status == 204 ==>
      wire + Reply(a) == wire + a.before + "Content-Length: 0\r\n" + a.after
  {
    hide Decimal, ToInt32;
    var r := RequestFor(a, "");
    var body, sent := Body(r), SentBody(r);
    HeadIs(|body|, a.before, a.after);
    var line := "Content-Length: " + Decimal(ToInt32(|body|)) + "\r\n";
    assert Reply(a) == a.before + line + a.after + sent by {
      assert a.before + "Content-Length: " + Decimal(ToInt32(|body|)) + "\r\n" == a.before + line;
    }
    NoLength();
    if a.fd == -1 || a.status == 204 {
      assert line == "Content-Length: 0\r\n";
      assert wire + (a.before + line + a.after + "") == wire + a.before + line + a.after;
    } else {
      assert wire + (a.before + line + a.after + sent)
          == wire + a.before + "Content-Length: " + Decimal(ToInt32(|body|)) + "\r\n" + a.after + sent;
    }
  }

  lemma NoLength()
    ensures Decimal(ToInt32(0)) == "0"
  {
    InRange(0);
  }

  /** No request takes more passes than this. */
  function Limit(a: Asked, r: Request): nat {
    |Body(r)| + 1 + |Head(|Body(r)|, a.before, a.after)| + |SentBody(r)|
  }

  /** The sending phase looks only at the write half of a pass. */
  lemma SameSend(p: Pump, i: Pass, j: Pass)
    requires i.writeReady == j.writeReady && i.writeCount == j.writeCount && i.before == j.before && i.after == j.after
    ensures SendPhase(p, i) == SendPhase(p, j) && (CanWrite(p, i) <==> CanWrite(p, j))
  {
  }

  lemma NoSend(p: Pump, i: Pass)
    requires !i.writeReady
    ensures SendPhase(p, i) == p
  {
  }

  lemma NoPasses(p: Pump)
    ensures PossibleRun(p, []) && Run(p, []) == p
  {
  }

  lemma RunNext(p: Pump, passes: seq<Pass>, i: Pass)
    ensures Run(p, passes + [i]) == Step(Run(p, passes), i)
    ensures PossibleRun(p, passes + [i]) <==> PossibleRun(p, passes) && Enabled(Run(p, passes), i) && Productive(i)
  {
    assert (passes + [i])[..|passes|] == passes;
  }

  lemma NotDone(p: Pump, r: Request)
    requires !p.clientWatched
    ensures !Done(p, r)
  {
  }

  lemma WatchedIsDone(p: Pump, r: Request)
    requires OnCourse(p, r) && p.clientWatched
    ensures Done(p, r)
  {
  }

  lemma ReadyIsWatched(p: Pump, i: Pass)
    requires Enabled(p, i) && Productive(i)
    ensures (i.fileReady && p.fileWatched) || (i.writeReady && p.clientWritable)
  {
  }

  /** All passes of the request offer the same header lines, so what was built is the header section of the reply. */
  lemma BuiltWithReply(p: Pump, a: Asked, r: Request, passes: seq<Pass>)
    requires Done(p, r) && BuiltFrom(p.built, r, passes) && r == RequestFor(a, r.wire)
    requires forall k :: 0 <= k < |passes| ==> passes[k].before == a.before && passes[k].after == a.after
    ensures p.wire == r.wire + Reply(a)
  {
    hide Head;
    assert Body(r) == Body(RequestFor(a, "")) && SentBody(r) == SentBody(RequestFor(a, ""));
    assert r.wire + p.built[0] + SentBody(r) == r.wire + (p.built[0] + SentBody(r));
  }

  lemma WithinLimit(p: Pump, a: Asked, r: Request, passes: seq<Pass>)
    requires !Done(p, r) && BuiltFrom(p.built, r, passes)
    requires forall k :: 0 <= k < |passes| ==> passes[k].before == a.before && passes[k].after == a.after
    requires if p.built == [] then |passes| <= |Body(r)| + 1 else |passes| <= |Body(r)| + |p.built[0]| + |SentBody(r)|
    ensures |passes| < Limit(a, r)
  {
    hide Decimal, ToInt32;
  }

  function Replies(asked: seq<Asked>): string {
    if asked == [] then "" else Replies(asked[..|asked| - 1]) + Reply(asked[|asked| - 1])
  }

  function ExchangeFor(a: Asked, passes: seq<Pass>): Exchange {
    Exchange(a.status, a.head, a.content, a.fd != -1, passes)
  }

  /** One request after another on one connection: the wire carries exactly the replies, in order. */
  method ServeSession(c: Connection, asked: seq<Asked>) returns (ghost es: seq<Exchange>, ghost replies: seq<string>)
    requires c.Idle() && forall a :: a in asked ==> a.fd != c.clientFd
    modifies c, c.handler
    ensures c.Idle() && c.wire == old(c.wire) + Replies(asked)
    ensures PossibleSession(old(c.State()), es) && c.State() == Session(old(c.State()), es)
    ensures |replies| == |asked| && c.wire == old(c.wire) + Flatten(replies)
    ensures forall k :: 0 <= k < |asked| ==> Answers(replies[k], asked[k])
  {
    hide Run, Begin, PossibleRun, Reply, Answers, Flatten;
    es := [];
    var i := 0;
    ghost var p := c.State();
    assert c.wire + "" == c.wire;
    while i < |asked|
      invariant 0 <= i <= |asked| && c.Idle() && c.wire == old(c.wire) + Replies(asked[..i])
      invariant PossibleSession(p, es) && c.State() == Session(p, es)
    {
      assert asked[..i + 1][..i] == asked[..i];
      ghost var passes := c.ServeRequest(asked[i]);
      SessionNext(p, es, ExchangeFor(asked[i], passes));
      es := es + [ExchangeFor(asked[i], passes)];
      assert old(c.wire) + Replies(asked[..i]) + Reply(asked[i]) == old(c.wire) + (Replies(asked[..i]) + Reply(asked[i]));
      i := i + 1;
    }
    assert asked[..i] == asked;
    replies := RepliesAnswer(asked);
  }

  lemma {:induction false} RepliesAnswer(asked: seq<Asked>) returns (replies: seq<string>)
    ensures |replies| == |asked| && Flatten(replies) == Replies(asked)
    ensures forall k :: 0 <= k < |asked| ==> Answers(replies[k], asked[k])
  {
    hide Reply, Answers, Flatten;
    if asked == [] {
      replies := [];
      FlattenNone();
    } else {
      var init, last := asked[..|asked| - 1], asked[|asked| - 1];
      var earlier := RepliesAnswer(init);
      ReplyAnswers(last);
      FlattenAppend(earlier, Reply(last));
      replies := earlier + [Reply(last)];
    }
  }

  /** A header section with the length of the file and, unless only the head is wanted, the file; without a
      file, or with status 204, a header section with length 0 alone. */
  predicate Answers(reply: string, a: Asked) {
    if a.fd != -1 && a.status != 204 then
      reply == a.before + "Content-Length: " + Decimal(ToInt32(|a.content|)) + "\r\n" + a.after
               + (if a.head then "" else a.content)
    else reply == a.before + "Content-Length: 0\r\n" + a.after
  }

  lemma ReplyAnswers(a: Asked)
    ensures Answers(Reply(a), a)
  {
    hide Reply, Decimal, ToInt32;
    ReplyIs(a, "");
    assert "" + Reply(a) == Reply(a);
    assert "" + a.before == a.before;
  }

  lemma SessionNext(p: Pump, es: seq<Exchange>, e: Exchange)
    ensures Session(p, es + [e]) == Serve(Session(p, es), e)
    ensures PossibleSession(p, es + [e]) <==>
      PossibleSession(p, es) && Serve(Session(p, es), e).clientWatched
      && PossibleRun(Begin(Session(p, es), e.status, e.head, e.file, e.hasFile), e.passes)
  {
    assert (es + [e])[..|es|] == es;
  }
}
