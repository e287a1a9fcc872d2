/** One connection over many fragments and many requests: the reading branch of webserver::run, which hands a
    request over and forgets it whenever a fragment completes it. */
module RequestRun {
  import opened Strings
  import opened Numbers
  import opened RequestFraming

  // ---------------------------------------------------------------- the connection

  /** The fragments since the last request was handed over, and the requests handed over. */
  datatype Conn = Conn(recent: seq<string>, handled: seq<Framed>)

  const START := Conn([], [])

  function Feed(c: Conn, data: string): Conn {
    var recent := c.recent + [data];
    if VerdictOn(Receive(recent)) == Valid then Conn([], c.handled + [Receive(recent)]) else Conn(recent, c.handled)
  }

  function Serve(fragments: seq<string>): Conn {
    if fragments == [] then START else Feed(Serve(fragments[..|fragments| - 1]), fragments[|fragments| - 1])
  }

  lemma ReceiveNext(fragments: seq<string>, data: string)
    ensures Receive(fragments + [data]) == Push(Receive(fragments), data)
  {
    assert (fragments + [data])[..|fragments|] == fragments;
  }

  /** One fragment: it is framed, and a completed request is handed over and forgotten. */
  method HandleFragment(server: Server, fd: int, data: string, handled0: seq<Framed>, ghost c: Conn)
      returns (handled: seq<Framed>)
    requires server.Valid() && server.Pending(fd) == Receive(c.recent) && handled0 == c.handled
    modifies server, server.requestBuffer.Values
    ensures server.Valid() && fresh(server.requestBuffer.Values - old(server.requestBuffer.Values))
    ensures handled == Feed(c, data).handled && server.Pending(fd) == Receive(Feed(c, data).recent)
    ensures forall other :: other != fd ==> server.Pending(other) == old(server.Pending(other))
  {
    hide VerdictOn, Push;
    ReceiveNext(c.recent, data);
    handled := handled0;
    var verdict := server.UpdateRequestBuffer(fd, data);
    if verdict == Valid {
      handled := handled + [server.requestBuffer[fd].Value()];
      server.RemoveHandledRequest(fd);
    }
  }

  /** The descriptor's buffer always holds what the fragments since the last request come to. */
  method HandleFragments(server: Server, fd: int, fragments: seq<string>) returns (handled: seq<Framed>)
    requires server.Valid() && fd !in server.requestBuffer
    modifies server, server.requestBuffer.Values
    ensures server.Valid() && fresh(server.requestBuffer.Values - old(server.requestBuffer.Values))
    ensures handled == Serve(fragments).handled && server.Pending(fd) == Receive(Serve(fragments).recent)
    ensures forall other :: other != fd ==> server.Pending(other) == old(server.Pending(other))
  {
    hide VerdictOn, Push, Feed;
    handled := [];
    var i := 0;
    while i < |fragments|
      invariant 0 <= i <= |fragments| && server.Valid()
      invariant fresh(server.requestBuffer.Values - old(server.requestBuffer.Values))
      invariant handled == Serve(fragments[..i]).handled
      invariant server.Pending(fd) == Receive(Serve(fragments[..i]).recent)
      invariant forall other :: other != fd ==> server.Pending(other) == old(server.Pending(other))
    {
      assert fragments[..i + 1][..i] == fragments[..i];
      handled := HandleFragment(server, fd, fragments[i], handled, Serve(fragments[..i]));
      i := i + 1;
    }
    assert fragments[..i] == fragments;
  }

  // ---------------------------------------------------------------- a sequence of messages

  /** Any message with complete headers, and the whole of its body as its sender means it. */
  datatype Message = Message(headers: string, body: string)

  function TextOf(m: Message): string {
    m.headers + m.body
  }

  predicate AllComplete(ms: seq<Message>) {
    forall k :: 0 <= k < |ms| ==> CompleteHeaders(ms[k].headers)
  }

  /** What the server takes for the whole body of such a message. */
  predicate Ends(m: Message, body: string) {
    Judge(m.headers, body, |body|) == Valid
  }

  /** The server finds a length field. */
  predicate Measured(m: Message) {
    Find(m.headers, LENGTH_FIELD, 0) != -1
  }

  /** The length that the server reads, as the huge number it turns a negative one into. */
  function LengthRead(m: Message): int
    requires Measured(m)
  {
    ToUint64(Atoi(FieldText(m.headers, Find(m.headers, LENGTH_FIELD, 0))))
  }

  predicate IsChunked(m: Message) {
    !Measured(m) && Find(m.headers, "chunked", 0) != -1
  }

  /** The three cases: by the length read, by the terminator, or always. */
  lemma EndsByKind(m: Message, body: string)
    ensures Ends(m, body) <==>
      if Measured(m) then LengthRead(m) == |body| else IsChunked(m) ==> EndsInTerminator(body)
  {
    hide Find, EndsInTerminator, FieldText, Atoi;
  }

  /** A length line as the servers print it is read as the body's length. */
  lemma PrintedLengthIsRead(m: Message, before: string, after: string)
    requires AnnouncesLength(m.headers, before, after, |m.body|) && |m.body| <= INT_MAX
    ensures Measured(m) && LengthRead(m) == |m.body|
  {
    hide Find, Atoi, FieldText;
    AnnouncedLengthIsRead(m.headers, before, after, |m.body|);
  }

  /** The server can tell the message's end by itself: it reads its body's length, or there is neither a length
      nor a body. */
  predicate TellsItsEnd(m: Message) {
    if Measured(m) then LengthRead(m) == |m.body| else !IsChunked(m) && m.body == ""
  }

  function Stream(ms: seq<Message>): string {
    if ms == [] then "" else Stream(ms[..|ms| - 1]) + TextOf(ms[|ms| - 1])
  }

  /** What has been framed is this message. */
  predicate Carries(f: Framed, m: Message) {
    f.headers == m.headers && Flatten(f.body) == m.body && f.bodySize == |m.body|
  }

  /** The first bytes of a message, or more, are judged by what the server takes for its whole body. */
  lemma Judged(m: Message, rest: string, recent: seq<string>)
    requires CompleteHeaders(m.headers) && Flatten(recent) <= m.headers + rest
    ensures var got, f := Flatten(recent), Receive(recent);
      && (VerdictOn(f) == Valid <==> |m.headers| <= |got| && Ends(m, got[|m.headers|..]))
      && (|m.headers| <= |got| ==> f.headers == m.headers && Flatten(f.body) == got[|m.headers|..]
                                   && f.bodySize == |got| - |m.headers|)
  {
    hide Find, Flatten, Receive, Judge, HeadersReceived;
    FrameOfPrefix(m.headers, rest, recent);
  }

  // ---------------------------------------------------------------- cuts

  /** The fragments break at this offset of the stream. */
  ghost predicate IsCut(fragments: seq<string>, n: nat) {
    exists i :: 0 <= i <= |fragments| && |Flatten(fragments[..i])| == n
  }

  lemma IsCutNext(fragments: seq<string>, data: string, n: nat)
    ensures IsCut(fragments + [data], n) <==> IsCut(fragments, n) || n == |Flatten(fragments + [data])|
  {
    var all := fragments + [data];
    assert all[..|all|] == all;
    assert forall i :: 0 <= i <= |fragments| ==> all[..i] == fragments[..i];
  }

  lemma {:induction false} CutsAreBounded(fragments: seq<string>, n: nat)
    ensures IsCut(fragments, n) ==> n <= |Flatten(fragments)|
    ensures IsCut(fragments, |Flatten(fragments)|)
  {
    if fragments == [] {
      assert fragments[..0] == [];
    } else {
      var init, last := fragments[..|fragments| - 1], fragments[|fragments| - 1];
      assert init + [last] == fragments;
      FlattenAppend(init, last);
      CutsAreBounded(init, n);
      IsCutNext(init, last, n);
      IsCutNext(init, last, |Flatten(fragments)|);
    }
  }

  lemma {:induction false} StreamSplit(ms: seq<Message>, k: nat)
    requires k < |ms|
    ensures Stream(ms[..k + 1]) == Stream(ms[..k]) + TextOf(ms[k])
    ensures Stream(ms[..k + 1]) <= Stream(ms)
  {
    hide TextOf;
    assert ms[..k + 1][..k] == ms[..k];
    if k + 1 == |ms| {
      assert ms[..k + 1] == ms;
    } else {
      StreamSplit(ms[..|ms| - 1], k);
      assert ms[..|ms| - 1][..k + 1] == ms[..k + 1] && ms[..|ms| - 1][..k] == ms[..k];
    }
  }

  /** Where in the stream message k starts, its body starts, and it ends. */
  function StartOf(ms: seq<Message>, k: nat): nat
    requires k <= |ms|
  {
    |Stream(ms[..k])|
  }

  function BodyStart(ms: seq<Message>, k: nat): nat
    requires k < |ms|
  {
    StartOf(ms, k) + |ms[k].headers|
  }

  function EndOf(ms: seq<Message>, k: nat): nat
    requires k < |ms|
  {
    BodyStart(ms, k) + |ms[k].body|
  }

  /** A cut inside the message's body falls where the server already takes the body to be whole. */
  ghost predicate EndsEarly(ms: seq<Message>, fragments: seq<string>, k: nat)
    requires k < |ms|
  {
    exists b: nat :: b < |ms[k].body| && IsCut(fragments, BodyStart(ms, k) + b) && Ends(ms[k], ms[k].body[..b])
  }

  /** The fragments break at the message's end, the server takes its body to be whole there, and at no cut before. */
  ghost predicate CutRight(ms: seq<Message>, fragments: seq<string>, k: nat)
    requires k < |ms|
  {
    IsCut(fragments, EndOf(ms, k)) && Ends(ms[k], ms[k].body) && !EndsEarly(ms, fragments, k)
  }

  /** For a message that tells its own end, only the end matters. */
  lemma CutRightAtTheEnd(ms: seq<Message>, fragments: seq<string>, k: nat)
    requires k < |ms| && TellsItsEnd(ms[k])
    ensures CutRight(ms, fragments, k) <==> IsCut(fragments, EndOf(ms, k))
  {
    hide IsCut, Ends, Stream, Measured, IsChunked;
    forall body
      ensures Ends(ms[k], body) <==>
        if Measured(ms[k]) then LengthRead(ms[k]) == |body| else IsChunked(ms[k]) ==> EndsInTerminator(body)
    {
      EndsByKind(ms[k], body);
    }
  }

  // ---------------------------------------------------------------- what is handed over

  /** After some fragments the first m messages have been handed over unchanged and were cut right, and what is
      buffered is less than the next one. */
  ghost predicate OnTrack(ms: seq<Message>, fragments: seq<string>, m: nat) {
    && m <= |ms| && HandedOver(ms, fragments, m) && |Serve(fragments).handled| == m
    && Stream(ms[..m]) + Flatten(Serve(fragments).recent) == Flatten(fragments)
    && (if m < |ms| then |Flatten(Serve(fragments).recent)| < |TextOf(ms[m])| && !EndsEarly(ms, fragments, m)
        else Flatten(Serve(fragments).recent) == "")
  }

  ghost predicate HandedOver(ms: seq<Message>, fragments: seq<string>, m: nat)
    requires m <= |ms|
  {
    |Serve(fragments).handled| >= m
    && forall j :: 0 <= j < m ==> Carries(Serve(fragments).handled[j], ms[j]) && CutRight(ms, fragments, j)
  }

  /** Message m has not been cut right and can no longer be. */
  ghost predicate Spoilt(ms: seq<Message>, fragments: seq<string>, m: nat)
    requires m < |ms|
  {
    EndsEarly(ms, fragments, m)
    || (EndOf(ms, m) <= |Flatten(fragments)| && !(IsCut(fragments, EndOf(ms, m)) && Ends(ms[m], ms[m].body)))
  }

  /** The first m messages have been handed over unchanged; the next one has been missed, or handed over changed. */
  ghost predicate OffTrack(ms: seq<Message>, fragments: seq<string>, m: nat) {
    && m < |ms| && HandedOver(ms, fragments, m) && Spoilt(ms, fragments, m)
    && (if |Serve(fragments).handled| == m then Missed(ms[m], Serve(fragments).recent)
        else !Carries(Serve(fragments).handled[m], ms[m]))
  }

  predicate Missed(m: Message, recent: seq<string>) {
    |TextOf(m)| <= |Flatten(recent)| && VerdictOn(Receive(recent)) == Invalid
  }

  lemma ServeNext(fragments: seq<string>, data: string)
    ensures Serve(fragments + [data]) == Feed(Serve(fragments), data)
    ensures Flatten(fragments + [data]) == Flatten(fragments) + data
    ensures Flatten(Serve(fragments).recent + [data]) == Flatten(Serve(fragments).recent) + data
  {
    hide Feed;
    assert (fragments + [data])[..|fragments|] == fragments;
    FlattenAppend(fragments, data);
    FlattenAppend(Serve(fragments).recent, data);
  }

  /** What comes after the cuts there are cannot change what they have decided. */
  lemma DecidedStays(ms: seq<Message>, fragments: seq<string>, data: string, k: nat)
    requires k < |ms| && EndOf(ms, k) <= |Flatten(fragments)|
    ensures IsCut(fragments + [data], EndOf(ms, k)) <==> IsCut(fragments, EndOf(ms, k))
    ensures EndsEarly(ms, fragments + [data], k) <==> EndsEarly(ms, fragments, k)
    ensures CutRight(ms, fragments + [data], k) <==> CutRight(ms, fragments, k)
  {
    hide IsCut, Ends, Stream;
    FlattenAppend(fragments, data);
    forall n: nat | n <= EndOf(ms, k)
      ensures IsCut(fragments + [data], n) <==> IsCut(fragments, n)
    {
      IsCutNext(fragments, data, n);
      CutsAreBounded(fragments, |Flatten(fragments)|);
    }
  }

  lemma EarlyStays(ms: seq<Message>, fragments: seq<string>, data: string, k: nat)
    requires k < |ms|
    ensures EndsEarly(ms, fragments, k) ==> EndsEarly(ms, fragments + [data], k)
  {
    hide IsCut, Ends, Stream;
    forall n: nat
      ensures IsCut(fragments, n) ==> IsCut(fragments + [data], n)
    {
      IsCutNext(fragments, data, n);
    }
  }

  lemma SpoiltStays(ms: seq<Message>, fragments: seq<string>, data: string, m: nat)
    requires m < |ms| && Spoilt(ms, fragments, m)
    ensures Spoilt(ms, fragments + [data], m)
  {
    hide IsCut, Ends, Stream, EndsEarly;
    FlattenAppend(fragments, data);
    EarlyStays(ms, fragments, data, m);
    if EndOf(ms, m) <= |Flatten(fragments)| {
      DecidedStays(ms, fragments, data, m);
    }
  }

  lemma HandedOverStays(ms: seq<Message>, fragments: seq<string>, data: string, m: nat)
    requires m <= |ms| && HandedOver(ms, fragments, m)
    ensures HandedOver(ms, fragments + [data], m)
  {
    hide IsCut, Ends, Stream, EndsEarly, Flatten, Receive, VerdictOn, Carries, EndOf, Serve;
    ServeNext(fragments, data);
    forall j | 0 <= j < m
      ensures CutRight(ms, fragments + [data], j)
    {
      assert CutRight(ms, fragments, j);
      CutsAreBounded(fragments, EndOf(ms, j));
      DecidedStays(ms, fragments, data, j);
    }
  }

  /** A buffer that holds more or other bytes than the message cannot be handed over as it. */
  lemma HandedOverWrong(m: Message, recent: seq<string>, data: string)
    requires Missed(m, recent) && VerdictOn(Receive(recent + [data])) == Valid
    ensures !Carries(Receive(recent + [data]), m)
  {
    hide Receive, VerdictOn;
    FlattenAppend(recent, data);
    FramingFollowsStream(recent + [data]);
    if data == "" {
      assert Flatten(recent) + data == Flatten(recent);
      VerdictIgnoresFragmentation(recent, recent + [data]);
    }
  }

  lemma OffTrackStays(ms: seq<Message>, fragments: seq<string>, data: string, m: nat)
    requires OffTrack(ms, fragments, m)
    ensures OffTrack(ms, fragments + [data], m)
  {
    hide Flatten, Receive, VerdictOn, Carries, Serve, Spoilt, HandedOver, TextOf, Stream;
    SpoiltStays(ms, fragments, data, m);
    HandedOverStays(ms, fragments, data, m);
    ServeNext(fragments, data);
    AtLeast(ms, fragments, m);
    var c := Serve(fragments);
    if |c.handled| == m && VerdictOn(Receive(c.recent + [data])) == Valid {
      HandedOverWrong(ms[m], c.recent, data);
    }
  }

  lemma AtLeast(ms: seq<Message>, fragments: seq<string>, m: nat)
    requires m <= |ms| && HandedOver(ms, fragments, m)
    ensures |Serve(fragments).handled| >= m
  {
  }

  /** What follows the first m messages starts with the next one. */
  lemma MessageDue(ms: seq<Message>, m: nat, got: string) returns (rest: string)
    requires m < |ms| && Stream(ms[..m]) + got <= Stream(ms)
    ensures got <= ms[m].headers + rest && ms[m].body <= rest
    ensures Stream(ms[..m + 1]) == Stream(ms[..m]) + TextOf(ms[m]) && |Stream(ms[..m + 1])| == EndOf(ms, m)
  {
    hide Stream;
    StreamSplit(ms, m);
    var front, text := Stream(ms[..m]), TextOf(ms[m]);
    var more := Stream(ms)[|front + text|..];
    rest := ms[m].body + more;
    assert Stream(ms) == front + (ms[m].headers + rest);
    assert (front + got)[|front|..] == got;
  }

  /** What a new cut inside, at, or beyond the end of message m decides about it. */
  lemma NewCut(ms: seq<Message>, fragments: seq<string>, data: string, m: nat, got: string)
    requires m < |ms| && !EndsEarly(ms, fragments, m) && |Flatten(fragments)| < EndOf(ms, m)
    requires |Flatten(fragments + [data])| == StartOf(ms, m) + |got|
    requires |ms[m].headers| <= |got| <= |TextOf(ms[m])| ==>
      got[|ms[m].headers|..] == ms[m].body[..|got| - |ms[m].headers|]
    ensures var whole := |ms[m].headers| <= |got| && Ends(ms[m], got[|ms[m].headers|..]);
      && (|got| < |TextOf(ms[m])| ==> (EndsEarly(ms, fragments + [data], m) <==> whole))
      && (|got| >= |TextOf(ms[m])| ==> !EndsEarly(ms, fragments + [data], m))
      && (|got| == |TextOf(ms[m])| <==> IsCut(fragments + [data], EndOf(ms, m)))
  {
    hide IsCut, Ends, Stream;
    forall n: nat
      ensures IsCut(fragments + [data], n) <==> IsCut(fragments, n) || n == StartOf(ms, m) + |got|
    {
      IsCutNext(fragments, data, n);
    }
    CutsAreBounded(fragments, EndOf(ms, m));
    var h := |ms[m].headers|;
    if h <= |got| < |TextOf(ms[m])| && Ends(ms[m], got[h..]) {
      assert IsCut(fragments + [data], BodyStart(ms, m) + (|got| - h));
    }
  }

  lemma FeedChoices(c: Conn, data: string)
    ensures Feed(c, data) == if VerdictOn(Receive(c.recent + [data])) == Valid
                             then Conn([], c.handled + [Receive(c.recent + [data])]) else Conn(c.recent + [data], c.handled)
  {
  }

  lemma BodySoFar(m: Message, rest: string, got: string)
    requires got <= m.headers + rest && m.body <= rest && |m.headers| <= |got| <= |TextOf(m)|
    ensures got[|m.headers|..] == m.body[..|got| - |m.headers|]
    ensures |got| == |TextOf(m)| ==> got[|m.headers|..] == m.body && got == TextOf(m)
  {
  }

  /** The message is completed: it is handed over unchanged. */
  lemma Completed(ms: seq<Message>, all: seq<string>, m: nat)
    requires AllComplete(ms) && m < |ms| && HandedOver(ms, all, m) && CutRight(ms, all, m)
    requires Flatten(all) == Stream(ms[..m + 1]) && Serve(all).recent == []
    requires |Serve(all).handled| == m + 1 && Carries(Serve(all).handled[m], ms[m])
    ensures OnTrack(ms, all, m + 1)
  {
    hide Flatten, Receive, VerdictOn, Carries, Serve, Stream, IsCut, Ends, CutRight, EndsEarly, TextOf, CompleteHeaders;
    FlattenNothing();
    assert Stream(ms[..m + 1]) + "" == Stream(ms[..m + 1]);
    if m + 1 < |ms| {
      HeadersAreLong(ms[m + 1]);
      TextIsLong(ms[m + 1]);
      NotEarlyYet(ms, all, m + 1);
    }
  }

  lemma HeadersAreLong(m: Message)
    requires CompleteHeaders(m.headers)
    ensures |m.headers| >= 4
  {
  }

  lemma TextIsLong(m: Message)
    ensures |TextOf(m)| >= |m.headers|
  {
  }

  lemma FlattenNothing()
    ensures Flatten([]) == ""
  {
  }

  lemma NotEarlyYet(ms: seq<Message>, fragments: seq<string>, k: nat)
    requires k < |ms| && |Flatten(fragments)| < BodyStart(ms, k)
    ensures !EndsEarly(ms, fragments, k)
  {
    hide IsCut, Flatten, Ends, Stream;
    forall n: nat
      ensures IsCut(fragments, n) ==> n < BodyStart(ms, k)
    {
      CutsAreBounded(fragments, n);
    }
  }

  lemma NothingReceived(recent: seq<string>)
    requires Flatten(recent) == ""
    ensures VerdictOn(Receive(recent)) == Invalid
  {
    hide Flatten, Receive, Judge;
    FramingFollowsStream(recent);
  }

  /** One more fragment, when everything has been handed over already. */
  lemma AfterTheLast(ms: seq<Message>, fragments: seq<string>, data: string)
    requires OnTrack(ms, fragments, |ms|) && Flatten(fragments + [data]) <= Stream(ms)
    ensures OnTrack(ms, fragments + [data], |ms|)
  {
    hide Flatten, Receive, VerdictOn, Serve, Stream, HandedOver, Feed;
    var c := Serve(fragments);
    ServeNext(fragments, data);
    assert ms[..|ms|] == ms;
    NothingReceived(c.recent + [data]);
    HandedOverStays(ms, fragments, data, |ms|);
    FeedChoices(c, data);
  }

  /** One more fragment, while message m is due. */
  lemma OnTrackStep(ms: seq<Message>, fragments: seq<string>, data: string, m: nat) returns (next: nat)
    requires AllComplete(ms) && m < |ms| && OnTrack(ms, fragments, m) && Flatten(fragments + [data]) <= Stream(ms)
    ensures OnTrack(ms, fragments + [data], next) || OffTrack(ms, fragments + [data], next)
  {
    hide Flatten, Receive, VerdictOn, Serve, Stream, HandedOver, EndsEarly, IsCut, Ends, CompleteHeaders, Feed;
    var c, msg := Serve(fragments), ms[m];
    var got := Flatten(c.recent + [data]);
    ServeNext(fragments, data);
    FeedChoices(c, data);
    HandedOverStays(ms, fragments, data, m);
    assert Stream(ms[..m]) + got == Flatten(fragments + [data]) by {
      assert Stream(ms[..m]) + (Flatten(c.recent) + data) == Stream(ms[..m]) + Flatten(c.recent) + data;
    }
    var rest := MessageDue(ms, m, got);
    Judged(msg, rest, c.recent + [data]);
    if |msg.headers| <= |got| <= |TextOf(msg)| {
      BodySoFar(msg, rest, got);
    }
    NewCut(ms, fragments, data, m, got);
    next := m;
    if VerdictOn(Receive(c.recent + [data])) == Valid && |got| == |TextOf(msg)| {
      next := m + 1;
      Completed(ms, fragments + [data], m);
    }
  }

  /** For every sequence of messages and every fragmentation of any first part of it: the first m messages were
      cut right and have been handed over unchanged, and either the next one is still due, or it has not been
      cut right, and it has been missed or handed over changed. */
  lemma {:induction false} ServedWhileCutRight(ms: seq<Message>, fragments: seq<string>) returns (m: nat)
    requires AllComplete(ms) && Flatten(fragments) <= Stream(ms)
    ensures OnTrack(ms, fragments, m) || OffTrack(ms, fragments, m)
  {
    hide Stream, OnTrack, OffTrack;
    if fragments == [] {
      m := 0;
      NothingServed(ms);
    } else {
      var init, last := fragments[..|fragments| - 1], fragments[|fragments| - 1];
      assert init + [last] == fragments;
      FlattenAppend(init, last);
      m := ServedWhileCutRight(ms, init);
      if OffTrack(ms, init, m) {
        OffTrackStays(ms, init, last, m);
      } else if m == |ms| {
        AfterTheLast(ms, init, last);
      } else {
        AtMostAll(ms, init, m);
        m := OnTrackStep(ms, init, last, m);
      }
    }
  }

  lemma AtMostAll(ms: seq<Message>, fragments: seq<string>, m: nat)
    requires OnTrack(ms, fragments, m)
    ensures m <= |ms|
  {
  }

  lemma NothingServed(ms: seq<Message>)
    requires AllComplete(ms)
    ensures OnTrack(ms, [], 0)
  {
    hide EndsEarly, CompleteHeaders;
    assert Stream(ms[..0]) == "" && Flatten([]) == "" && Serve([]) == START;
    if ms != [] {
      HeadersAreLong(ms[0]);
      NotEarlyYet(ms, [], 0);
    }
  }

  /** Every message has been handed over as it was sent, and nothing else. */
  ghost predicate AllHandled(ms: seq<Message>, fragments: seq<string>) {
    && |Serve(fragments).handled| == |ms|
    && forall k :: 0 <= k < |ms| ==> Carries(Serve(fragments).handled[k], ms[k])
  }

  /** All messages of a connection are handed over unchanged if and only if each of them is cut right: the
      fragments break at its end, and at no break before does its body look whole. */
  lemma AllHandledExactlyWhenCutRight(ms: seq<Message>, fragments: seq<string>)
    requires AllComplete(ms) && Flatten(fragments) == Stream(ms)
    ensures AllHandled(ms, fragments) <==> forall k :: 0 <= k < |ms| ==> CutRight(ms, fragments, k)
  {
    hide Stream, OnTrack, OffTrack, CutRight;
    var m := ServedWhileCutRight(ms, fragments);
    if OnTrack(ms, fragments, m) {
      OnTrackToTheEnd(ms, fragments, m);
    } else {
      OffTrackIsWrong(ms, fragments, m);
    }
  }

  lemma OnTrackToTheEnd(ms: seq<Message>, fragments: seq<string>, m: nat)
    requires OnTrack(ms, fragments, m) && Flatten(fragments) == Stream(ms)
    ensures AllHandled(ms, fragments) && forall k :: 0 <= k < |ms| ==> CutRight(ms, fragments, k)
  {
    hide Flatten, Serve, Stream, CutRight, EndsEarly, Carries, TextOf;
    if m < |ms| {
      StreamSplit(ms, m);
    }
  }

  lemma OffTrackIsWrong(ms: seq<Message>, fragments: seq<string>, m: nat)
    requires OffTrack(ms, fragments, m)
    ensures m < |ms| && !AllHandled(ms, fragments) && !CutRight(ms, fragments, m)
  {
    hide Flatten, Serve, Stream, Ends, IsCut, Carries, TextOf, HandedOver, Missed;
  }

  /** When every message tells its own end, all are handed over unchanged if and only if the fragments break at
      every end. */
  lemma AllHandledExactlyWhenCut(ms: seq<Message>, fragments: seq<string>)
    requires AllComplete(ms) && Flatten(fragments) == Stream(ms) && forall k :: 0 <= k < |ms| ==> TellsItsEnd(ms[k])
    ensures AllHandled(ms, fragments) <==> forall k :: 0 <= k < |ms| ==> IsCut(fragments, EndOf(ms, k))
  {
    hide Stream, CutRight, IsCut, AllHandled, TellsItsEnd;
    AllHandledExactlyWhenCutRight(ms, fragments);
    forall k | 0 <= k < |ms|
      ensures CutRight(ms, fragments, k) <==> IsCut(fragments, EndOf(ms, k))
    {
      CutRightAtTheEnd(ms, fragments, k);
    }
  }

  // ---------------------------------------------------------------- what an overrun does

  /** A buffer that runs over the end of a message is complete when the length read happens to be that of all
      the bytes, for a chunked one when they end like a terminator, and always without either; what is then
      handed over is not the message. */
  lemma Overrun(m: Message, more: string, recent: seq<string>)
    requires CompleteHeaders(m.headers) && more != "" && Flatten(recent) == TextOf(m) + more
    ensures var f := Receive(recent);
      && f.headers == m.headers && Flatten(f.body) == m.body + more && !Carries(f, m)
      && (VerdictOn(f) == Valid <==>
            if Measured(m) then LengthRead(m) == |m.body + more| else IsChunked(m) ==> EndsInTerminator(m.body + more))
  {
    hide Flatten, Receive, VerdictOn, EndsInTerminator, CompleteHeaders, Ends, Measured, IsChunked;
    assert TextOf(m) + more == m.headers + (m.body + more);
    assert Flatten(recent)[|m.headers|..] == m.body + more;
    Judged(m, m.body + more, recent);
    EndsByKind(m, m.body + more);
  }

  function FeedAll(c: Conn, fragments: seq<string>): Conn {
    if fragments == [] then c else Feed(FeedAll(c, fragments[..|fragments| - 1]), fragments[|fragments| - 1])
  }

  /** Once a buffer has run over the length that was read, nothing is ever handed over again. */
  lemma {:induction false} AnnouncedStalls(c: Conn, m: Message, more: string, fragments: seq<string>)
    requires CompleteHeaders(m.headers) && Measured(m) && more != "" && Flatten(c.recent) == TextOf(m) + more
    requires LengthRead(m) < |m.body + more|
    ensures FeedAll(c, fragments) == Conn(c.recent + fragments, c.handled)
  {
    hide Flatten, Receive, VerdictOn, CompleteHeaders, Feed, Measured, LengthRead;
    if fragments == [] {
      assert c.recent + [] == c.recent;
    } else {
      var init, last := fragments[..|fragments| - 1], fragments[|fragments| - 1];
      AnnouncedStalls(c, m, more, init);
      assert init + [last] == fragments && c.recent + init + [last] == c.recent + fragments;
      FlattenBoth(c.recent, fragments);
      assert TextOf(m) + more + Flatten(fragments) == TextOf(m) + (more + Flatten(fragments));
      Overrun(m, more + Flatten(fragments), c.recent + fragments);
      FeedChoices(FeedAll(c, init), last);
    }
  }

  lemma {:induction false} FlattenBoth(a: seq<string>, b: seq<string>)
    ensures Flatten(a + b) == Flatten(a) + Flatten(b)
  {
    if b == [] {
      assert a + b == a;
    } else {
      var init, last := b[..|b| - 1], b[|b| - 1];
      assert init + [last] == b && a + init + [last] == a + b;
      FlattenAppend(a + init, last);
      FlattenAppend(init, last);
      FlattenBoth(a, init);
    }
  }
}
