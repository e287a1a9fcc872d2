/** mini_serv_original.c itself: the globals, the functions over them and the main loop. */
module ChatServer {
  import opened Strings
  import opened Numbers
  import opened ChatProtocol
  import opened ClientList

  // ---------------------------------------------------------------- C buffers

  /** The buffer holds this C string and nothing but zeros after it. */
  ghost predicate Holds(a: array<char>, s: string)
    reads a
  {
    |s| < a.Length && NulFree(s) && a[..|s|] == s && forall k :: |s| <= k < a.Length ==> a[k] == '\0'
  }

  lemma AtEnd(a: array<char>, s: string, i: nat)
    requires Holds(a, s) && i <= |s|
    ensures a[i] == '\0' <==> i == |s|
    ensures i < |s| ==> a[i] == s[i]
  {
    if i < |s| {
      assert a[..|s|][i] == s[i];
    }
  }

  method Strlen(a: array<char>, ghost s: string) returns (n: nat)
    requires Holds(a, s)
    ensures n == |s|
  {
    n := 0;
    AtEnd(a, s, n);
    while a[n] != '\0'
      invariant n <= |s| && (a[n] == '\0' <==> n == |s|)
      decreases |s| - n
    {
      n := n + 1;
      AtEnd(a, s, n);
    }
  }

  /** bzero over the C string in a buffer, or over the whole buffer. */
  method Bzero(a: array<char>, n: nat, ghost s: string)
    requires a.Length > 0 && (n == a.Length || (Holds(a, s) && n == |s|))
    modifies a
    ensures Holds(a, "")
  {
    var i := 0;
    while i < n
      invariant 0 <= i <= n
      invariant forall k :: 0 <= k < i || n <= k < a.Length ==> a[k] == '\0'
    {
      a[i] := '\0';
      i := i + 1;
    }
  }

  lemma HeldText(a: array<char>, s: string)
    requires Holds(a, s)
    ensures |s| < a.Length && NulFree(s) && a[..|s|] == s
  {
  }

  /** sprintf into a zeroed buffer, and recv of a NUL-free text into one. */
  method Store(a: array<char>, text: string)
    requires Holds(a, "") && |text| < a.Length && NulFree(text)
    modifies a
    ensures Holds(a, text)
  {
    var i := 0;
    while i < |text|
      invariant 0 <= i <= |text| && a[..i] == text[..i]
      invariant forall k :: i <= k < a.Length ==> a[k] == '\0'
    {
      a[i] := text[i];
      i := i + 1;
    }
  }

  method StoreChar(a: array<char>, j: nat, c: char, ghost s: string)
    requires Holds(a, s) && j <= |s| && j + 1 < a.Length && c != '\0'
    modifies a
    ensures Holds(a, Put(s, j, c))
  {
    a[j] := c;
  }

  lemma PrintedLine(id: int, line: string, text: string)
    requires 0 <= id <= INT_MAX && NulFree(line) && |line| < TEXT_SIZE && text == "client " + Decimal(id) + ": " + line
    ensures text == Text(Said(id, line)) && NulFree(text) && |text| < TEXT_SIZE + 42
  {
    AnnouncementsFit(Said(id, line));
    TextIsNulFree(Said(id, line));
  }

  lemma TextIsNulFree(e: Event)
    requires e.Said? ==> NulFree(e.line)
    ensures NulFree(Text(e))
  {
    assert forall n: nat :: NulFree(Digits(n));
  }

  // ---------------------------------------------------------------- the program

  class ChatServer {
    const sockFd: int
    const list: ClientList
    const msg: array<char>
    const str: array<char>
    const tmp: array<char>
    const buf: array<char>
    var currSock: set<int>
    var cpyRead: set<int>
    var cpyWrite: set<int>
    ghost var line: string
    ghost var inbox: Inbox
    ghost var history: seq<Event>

    ghost predicate Buffers()
      reads this, msg, str, tmp, buf
    {
      BuffersWith("")
    }

    /** The scratch buffers while str holds a received text. */
    ghost predicate BuffersWith(text: string)
      reads this, msg, str, tmp, buf
    {
      && msg.Length == MSG_SIZE && str.Length == TEXT_SIZE && tmp.Length == TEXT_SIZE && buf.Length == TEXT_SIZE + 42
      && msg != str && msg != tmp && msg != buf && str != tmp && str != buf && tmp != buf
      && Holds(tmp, line) && Holds(buf, "") && Holds(str, text)
    }

    /** The objects that make up the program's state. */
    ghost function Footprint(): set<object>
      reads this, list
    {
      {this, list, msg, str, tmp, buf} + set n | n in list.nodes
    }

    ghost predicate Valid()
      reads Footprint()
    {
      list.Valid() && Buffers() && Inv(State())
    }

    ghost function State(): Chat
      reads Footprint()
    {
      Chat(sockFd, list.Members(), list.nextId, currSock, cpyWrite, line, inbox, history)
    }

    twostate predicate FreshNodes(before: seq<Client>)
      reads this, list
    {
      forall n :: n in list.nodes ==> n in before || fresh(n)
    }

    constructor (sockFd: int)
      requires sockFd >= 0
      ensures Valid() && State() == Start(sockFd)
      ensures fresh(list) && list.nodes == [] && fresh(msg) && fresh(str) && fresh(tmp) && fresh(buf)
      ensures msg.Length == 42 && str.Length == tmp.Length == 42 * 4096 && buf.Length == 42 * 4096 + 42
    {
      this.sockFd := sockFd;
      list := new ClientList();
      msg := new char[MSG_SIZE](_ => '\0');
      str := new char[TEXT_SIZE](_ => '\0');
      tmp := new char[TEXT_SIZE](_ => '\0');
      buf := new char[TEXT_SIZE + 42](_ => '\0');
      currSock, cpyRead, cpyWrite := {sockFd}, {}, {};
      line, inbox, history := "", map[], [];
      new;
      StartInv(sockFd);
    }

    /** Every send is taken to succeed; it is recorded under the id of the client that owns the descriptor. */
    method SendAll(fd: int, text: array<char>, ghost s: string)
      requires list.Valid() && Holds(text, s)
      modifies this`inbox
      ensures inbox == Deliver(list.Members(), fd, cpyWrite, s, old(inbox))
    {
      hide Contents;
      var temp := list.clients;
      ghost var k, members := 0, list.Members();
      while temp != null
        invariant 0 <= k <= |list.nodes| && temp == NodeAt(list.nodes, k)
        invariant inbox == Deliver(members[..k], fd, cpyWrite, s, old(inbox))
        decreases |list.nodes| - k
      {
        assert members[..k + 1][..k] == members[..k];
        if temp.fd != fd && temp.fd in cpyWrite {
          var length := Strlen(text, s);
          inbox := inbox[temp.id := Received(inbox, temp.id) + [text[..length]]];
        }
        temp := temp.next;
        k := k + 1;
      }
      assert members[..k] == members;
    }

    /** sprintf(msg, ...) and send_all. */
    method Tell(fd: int, text: string, ghost e: Event)
      requires list.Valid() && Buffers() && Holds(msg, "") && !e.Said? && text == Text(e) && 0 <= e.id <= INT_MAX
      modifies this`inbox, this`history, msg
      ensures list.Valid() && Buffers() && State() == Announce(old(State()), fd, e)
    {
      hide Holds, Deliver, Contents, Chain, Decimal;
      AnnouncementsFit(e);
      TextIsNulFree(e);
      Store(msg, text);
      SendAll(fd, msg, text);
      history := history + [e];
    }

    /** The descriptor accept returns is the environment's choice; it must not be open. */
    method AddClient(clientFd: int)
      requires list.Valid() && Buffers() && Holds(msg, "") && 0 <= list.nextId <= INT_MAX
      modifies this, list, list.nodes, msg
      ensures list.Valid() && Buffers() && FreshNodes(old(list.nodes))
      ensures State() == Accept(old(State()), clientFd) && cpyRead == old(cpyRead)
    {
      hide Holds, Deliver, Contents, Chain, Decimal;
      var id := list.AddClientToList(clientFd);
      ghost var e := Arrived(id);
      Tell(clientFd, "server: client " + Decimal(id) + " just arrived\n", e);
      currSock := currSock + {clientFd};
    }

    /** The branch of the main loop for a connection that recv reports closed. */
    method DropClient(fd: int)
      requires list.Valid() && Buffers() && Holds(msg, "") && fd in Fds(list.Members())
      requires 0 <= IdOf(list.Members(), fd) <= INT_MAX
      modifies this, list, list.nodes, msg
      ensures list.Valid() && Buffers() && FreshNodes(old(list.nodes))
      ensures State() == Leave(old(State()), fd)
    {
      hide Holds, Deliver, Contents, Chain, Decimal, IdOf, Without, Fds;
      var id := list.RmClient(fd);
      ghost var e := Left(id);
      Tell(fd, "server: client " + Decimal(id) + " just left\n", e);
      currSock := currSock - {fd};
    }

    /** sprintf(buf, "client %d: %s", id, tmp). */
    method PrintLine(id: int)
      requires Holds(tmp, line) && Holds(buf, "") && buf.Length == TEXT_SIZE + 42 && tmp.Length == TEXT_SIZE
      requires 0 <= id <= INT_MAX
      modifies buf
      ensures Holds(buf, Text(Said(id, line)))
    {
      hide Holds, Decimal;
      HeldText(tmp, line);
      var length := Strlen(tmp, line);
      var text := "client " + Decimal(id) + ": " + tmp[..length];
      PrintedLine(id, line, text);
      Store(buf, text);
    }

    /** bzero over the two C strings. */
    method ClearLine(ghost text: string)
      requires Holds(tmp, line) && Holds(buf, text) && tmp != buf
      modifies this`line, tmp, buf
      ensures Holds(tmp, line) && Holds(buf, "") && line == ""
    {
      hide Holds;
      HeldText(tmp, line);
      HeldText(buf, text);
      var length := Strlen(tmp, line);
      Bzero(tmp, length, line);
      length := Strlen(buf, text);
      Bzero(buf, length, text);
      line := "";
    }

    /** A complete line is in tmp: print it into buf, send it, clear both. */
    method SayLine(fd: int, ghost received: string)
      requires list.Valid() && BuffersWith(received) && 0 <= IdOf(list.Members(), fd) <= INT_MAX
      modifies this, tmp, buf
      ensures list.Valid() && BuffersWith(received) && list.nodes == old(list.nodes)
      ensures State() == Announce(old(State()), fd, Said(IdOf(list.Members(), fd), old(line))).(line := "")
      ensures cpyRead == old(cpyRead)
    {
      hide Holds, Deliver, Contents, Chain, IdOf, Text;
      var id := list.GetId(fd);
      ghost var e := Said(id, line);
      PrintLine(id);
      SendAll(fd, buf, Text(e));
      history := history + [e];
      ClearLine(Text(e));
    }

    /** One character of str: append it to tmp, and announce the line if it ends one. */
    method TakeChar(fd: int, j0: nat, ghost text: string, i: nat) returns (j: nat)
      requires list.Valid() && BuffersWith(text) && 0 <= IdOf(list.Members(), fd) <= INT_MAX
      requires i < |text| && j0 <= i && j0 <= |line|
      modifies this, tmp, buf
      ensures list.Valid() && BuffersWith(text) && list.nodes == old(list.nodes) && cpyRead == old(cpyRead)
      ensures j <= i + 1 && j <= |line|
      ensures Say(old(State()), fd, j0, text[i..]) == Say(State(), fd, j, text[i + 1..])
    {
      hide Holds, Announce, Contents, Chain, IdOf, Say;
      HeldText(str, text);
      AtEnd(str, text, i);
      SayStep(State(), fd, j0, text[i..]);
      assert text[i..][1..] == text[i + 1..];
      HeldText(tmp, line);
      StoreChar(tmp, j0, str[i], line);
      line := Put(line, j0, text[i]);
      j := j0 + 1;
      if str[i] == '\n' {
        SayLine(fd, text);
        j := 0;
      }
    }

    /** str holds the received text. */
    method ExMsg(fd: int, ghost text: string)
      requires list.Valid() && 0 <= IdOf(list.Members(), fd) <= INT_MAX
      requires BuffersWith(text)
      modifies this, str, tmp, buf
      ensures list.Valid() && Buffers() && list.nodes == old(list.nodes)
      ensures State() == Say(old(State()), fd, 0, text) && cpyRead == old(cpyRead)
    {
      hide Holds, Announce, Contents, Chain, IdOf, Say;
      var i, j := 0, 0;
      ghost var start := State();
      HeldText(str, text);
      AtEnd(str, text, i);
      assert text[0..] == text;
      while str[i] != '\0'
        invariant list.Valid() && list.nodes == old(list.nodes) && list.Members() == start.members
        invariant BuffersWith(text) && i <= |text| < str.Length && 0 <= j <= i && j <= |line|
        invariant str[i] == '\0' <==> i == |text|
        invariant cpyRead == old(cpyRead)
        invariant Say(start, fd, 0, text) == Say(State(), fd, j, text[i..])
        decreases |text| - i
      {
        j := TakeChar(fd, j, text, i);
        i := i + 1;
        AtEnd(str, text, i);
      }
      SayNothing(State(), fd, j);
      assert text[i..] == "";
      var length := Strlen(str, text);
      Bzero(str, length, text);
    }

    /** What the main loop does with one ready descriptor; an arrival or a departure breaks the loop. */
    method HandleReady(t: Tour, fd: nat) returns (stop: bool)
      requires Valid() && Possible(State(), t) && Receivable(t) && 0 <= State().nextId < INT_MAX
      requires Fds(State().members) <= State().writable && fd in t.ready && fd <= MaxFd(State().members, State().sock)
      modifies Footprint()
      ensures Valid() && fresh(Footprint() - old(Footprint()))
      ensures Sweep(old(State()), t, fd) == if stop then State() else Sweep(State(), t, fd + 1)
      ensures !stop ==> SameClients(State(), old(State())) && cpyRead == old(cpyRead)
    {
      hide Inv, Holds, Contents, Chain, Sweep, Say, Accept, Leave, IdOf, MaxFd;
      ghost var c := State();
      SweepStep(c, t, fd);
      if fd == sockFd {
        AcceptKeepsInv(c, t.newFd);
        Bzero(msg, msg.Length, "");
        AddClient(t.newFd);
        return true;
      }
      ReadyIsListed(c, t, fd);
      if fd !in t.input || t.input[fd] == "" {
        LeaveKeepsInv(c, fd);
        Bzero(msg, msg.Length, "");
        DropClient(fd);
        return true;
      }
      Store(str, t.input[fd]);
      ExMsg(fd, t.input[fd]);
      SayKeeps(c, fd, 0, t.input[fd]);
      SayKeepsInv(c, fd, 0, t.input[fd]);
      return false;
    }

    /** The loop over descriptors has come to fd without an arrival or a departure. */
    ghost predicate Sweeping(start: Chat, t: Tour, fd: nat)
      reads Footprint()
    {
      Valid() && SameClients(State(), start) && cpyRead == t.ready && Sweep(start, t, 0) == Sweep(State(), t, fd)
    }

    /** One iteration of that loop. */
    method VisitFd(t: Tour, fd: nat, ghost start: Chat) returns (stop: bool)
      requires Sweeping(start, t, fd) && Possible(start, t) && Receivable(t) && 0 <= start.nextId < INT_MAX
      requires Fds(start.members) <= start.writable && fd <= MaxFd(start.members, start.sock)
      modifies Footprint()
      ensures Valid() && fresh(Footprint() - old(Footprint()))
      ensures stop ==> State() == Sweep(start, t, 0)
      ensures !stop ==> Sweeping(start, t, fd + 1)
    {
      hide Valid, State, Sweep, MaxFd, Fds;
      if fd in cpyRead {
        stop := HandleReady(t, fd);
      } else {
        SweepStep(State(), t, fd);
        stop := false;
      }
    }

    /** cpy_write = cpy_read = curr_sock, then select leaves the ready descriptors in cpy_read. */
    method Select(t: Tour) returns (ghost start: Chat)
      requires Valid()
      modifies this`cpyRead, this`cpyWrite
      ensures Footprint() == old(Footprint()) && start == old(State()).(writable := old(State()).open)
      ensures Sweeping(start, t, 0) && Fds(start.members) <= start.writable && start.nextId >= 0
    {
      WritableIsFree(State());
      cpyRead, cpyWrite := t.ready, currSock;
      start := State();
    }

    method MaxOpen(ghost start: Chat, ghost t: Tour, ghost fd: nat) returns (max: int)
      requires Sweeping(start, t, fd)
      ensures max == MaxFd(start.members, start.sock)
    {
      max := list.GetMaxFd(sockFd);
    }

    lemma SweepDone(start: Chat, t: Tour, fd: nat)
      requires Sweeping(start, t, fd) && fd > MaxFd(start.members, start.sock)
      ensures Valid() && State() == Sweep(start, t, 0)
    {
      SweepEnds(State(), t, fd);
    }

    /** One turn of the main loop: select reports t.ready, then the loop over descriptors. */
    method Turn(t: Tour)
      requires Valid() && Possible(State(), t) && Receivable(t) && State().nextId < INT_MAX
      modifies Footprint()
      ensures Valid() && fresh(Footprint() - old(Footprint()))
      ensures State() == MainLoopTurn(old(State()), t)
    {
      hide Valid, State, Sweeping, Sweep, MaxFd, Fds, Receivable;
      ghost var start := Select(t);
      var fd := 0;
      var max := MaxOpen(start, t, fd);
      while fd <= max
        invariant 0 <= fd && Sweeping(start, t, fd) && fresh(Footprint() - old(Footprint()))
        invariant max == MaxFd(start.members, start.sock)
        decreases max + 1 - fd
      {
        var stop := VisitFd(t, fd, start);
        if stop {
          return;
        }
        fd := fd + 1;
        max := MaxOpen(start, t, fd);
      }
      SweepDone(start, t, fd);
    }

    /** The main loop over any finite run of turns. */
    method Run(tours: seq<Tour>)
      requires Valid() && State() == Start(sockFd) && PossibleRun(sockFd, tours) && |tours| < INT_MAX
      requires forall t :: t in tours ==> Receivable(t)
      modifies Footprint()
      ensures Valid() && fresh(Footprint() - old(Footprint()))
      ensures State() == ChatProtocol.Run(Start(sockFd), tours)
    {
      hide Valid, State, MainLoopTurn, Possible, Inv;
      var i := 0;
      while i < |tours|
        invariant 0 <= i <= |tours| && Valid() && fresh(Footprint() - old(Footprint()))
        invariant State() == ChatProtocol.Run(Start(sockFd), tours[..i]) && State().nextId <= i
      {
        assert tours[..i + 1][..i] == tours[..i];
        PossiblePrefix(sockFd, tours, i + 1);
        TurnArrivals(State(), tours[i]);
        Turn(tours[i]);
        i := i + 1;
      }
      assert tours[..i] == tours;
    }
  }

  /** The clients, the sets and the id counter are the same; only messages have been sent. */
  ghost predicate SameClients(c: Chat, d: Chat) {
    c.members == d.members && c.open == d.open && c.writable == d.writable && c.nextId == d.nextId && c.sock == d.sock
  }

  /** What recv delivers is a C string that fits str. */
  predicate Receivable(t: Tour) {
    forall fd :: fd in t.input ==> |t.input[fd]| < TEXT_SIZE && NulFree(t.input[fd])
  }
}
