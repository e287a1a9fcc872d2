/** The chat server of mini_serv_original.c as a state machine over values: what each step of the
    main loop does to the client list, the descriptor set and the messages sent. */
module ChatProtocol {
  import opened Strings
  import opened Numbers

  datatype Member = Member(fd: int, id: int)

  /** Everything that is announced, in order. A line is what ex_msg finds in its line buffer. */
  datatype Event = Arrived(id: int) | Left(id: int) | Said(id: int, line: string)

  function Text(e: Event): string {
    match e
    case Arrived(id) => "server: client " + Decimal(id) + " just arrived\n"
    case Left(id) => "server: client " + Decimal(id) + " just left\n"
    case Said(id, line) => "client " + Decimal(id) + ": " + line
  }

  type Inbox = map<int, seq<string>>

  /** The messages sent so far to the client with this id. */
  function Received(inbox: Inbox, id: int): seq<string> {
    if id in inbox then inbox[id] else []
  }

  /** g_clients, g_id, curr_sock and cpy_write, the line buffer, and the record of what happened. */
  datatype Chat = Chat(sock: int, members: seq<Member>, nextId: int, open: set<int>, writable: set<int>,
                       line: string, inbox: Inbox, history: seq<Event>)

  function Fds(members: seq<Member>): set<int> {
    set m | m in members :: m.fd
  }

  /** get_id: the id of the first client with this descriptor. */
  function IdOf(members: seq<Member>, fd: int): int {
    if members == [] then -1 else if members[0].fd == fd then members[0].id else IdOf(members[1..], fd)
  }

  /** get_max_fd. */
  function MaxFd(members: seq<Member>, sock: int): (max: int)
    ensures sock <= max && forall k :: 0 <= k < |members| ==> members[k].fd <= max
  {
    if members == [] then sock
    else
      var last, max := members[|members| - 1].fd, MaxFd(members[..|members| - 1], sock);
      if last > max then last else max
  }

  /** rm_client unlinks the first client with this descriptor. */
  function Without(members: seq<Member>, fd: int): seq<Member> {
    if members == [] then [] else if members[0].fd == fd then members[1..] else [members[0]] + Without(members[1..], fd)
  }

  /** send_all: everyone in the list but the one descriptor, and only descriptors in cpy_write. */
  function Deliver(members: seq<Member>, except: int, writable: set<int>, text: string, inbox: Inbox): Inbox {
    if members == [] then inbox
    else
      var m, before := members[|members| - 1], Deliver(members[..|members| - 1], except, writable, text, inbox);
      if m.fd != except && m.fd in writable then before[m.id := Received(before, m.id) + [text]] else before
  }

  function Announce(c: Chat, except: int, e: Event): Chat {
    c.(inbox := Deliver(c.members, except, c.writable, Text(e), c.inbox), history := c.history + [e])
  }

  // ---------------------------------------------------------------- the steps

  /** add_client. */
  function Accept(c: Chat, fd: int): Chat {
    var joined := c.(members := c.members + [Member(fd, c.nextId)], nextId := c.nextId + 1);
    Announce(joined, fd, Arrived(c.nextId)).(open := c.open + {fd})
  }

  /** The branch of the main loop for a closed connection. */
  function Leave(c: Chat, fd: int): Chat {
    Announce(c.(members := Without(c.members, fd)), fd, Left(IdOf(c.members, fd))).(open := c.open - {fd})
  }

  /** The line buffer after one more character at position j; what is beyond stays. */
  function Put(line: string, j: nat, c: char): string {
    if j < |line| then line[j := c] else line + [c]
  }

  /** ex_msg from position j of the line buffer on. */
  function Say(c: Chat, fd: int, j: nat, text: string): Chat
    decreases |text|
  {
    if text == "" then c
    else
      var line := Put(c.line, j, text[0]);
      if text[0] == '\n' then
        Say(Announce(c, fd, Said(IdOf(c.members, fd), line)).(line := ""), fd, 0, text[1..])
      else Say(c.(line := line), fd, j + 1, text[1..])
  }

  lemma SayStep(c: Chat, fd: int, j: nat, text: string)
    requires text != ""
    ensures var d := c.(line := Put(c.line, j, text[0]));
      Say(c, fd, j, text) ==
        if text[0] == '\n' then Say(Announce(d, fd, Said(IdOf(d.members, fd), d.line)).(line := ""), fd, 0, text[1..])
        else Say(d, fd, j + 1, text[1..])
  {
  }

  lemma SayNothing(c: Chat, fd: int, j: nat)
    ensures Say(c, fd, j, "") == c
  {
  }

  /** What the environment supplies for one turn of the main loop: the ready descriptors, the descriptor
      that accept would return, and what recv returns (nothing for a closed connection). */
  datatype Tour = Tour(ready: set<int>, newFd: int, input: map<int, string>)

  /** The for loop over descriptors; an arrival or a departure ends it. */
  function Sweep(c: Chat, t: Tour, fd: nat): Chat
    decreases MaxFd(c.members, c.sock) + 1 - fd
  {
    if fd > MaxFd(c.members, c.sock) then c
    else if fd !in t.ready then Sweep(c, t, fd + 1)
    else if fd == c.sock then Accept(c, t.newFd)
    else if fd !in t.input || t.input[fd] == "" then Leave(c, fd)
    else
      SayKeeps(c, fd, 0, t.input[fd]);
      Sweep(Say(c, fd, 0, t.input[fd]), t, fd + 1)
  }

  lemma {:induction false} SayKeeps(c: Chat, fd: int, j: nat, text: string)
    ensures var d := Say(c, fd, j, text);
      d.members == c.members && d.sock == c.sock && d.open == c.open && d.writable == c.writable && d.nextId == c.nextId
    decreases |text|
  {
    if text == "" {
    } else {
      var line := Put(c.line, j, text[0]);
      if text[0] == '\n' {
        SayKeeps(Announce(c, fd, Said(IdOf(c.members, fd), line)).(line := ""), fd, 0, text[1..]);
      } else {
        SayKeeps(c.(line := line), fd, j + 1, text[1..]);
      }
    }
  }

  function MainLoopTurn(c: Chat, t: Tour): Chat {
    Sweep(c.(writable := c.open), t, 0)
  }

  function Run(c: Chat, tours: seq<Tour>): Chat {
    if tours == [] then c else MainLoopTurn(Run(c, tours[..|tours| - 1]), tours[|tours| - 1])
  }

  function Start(sock: int): Chat {
    Chat(sock, [], 0, {sock}, {}, "", map[], [])
  }

  // ---------------------------------------------------------------- what every step keeps

  /** The messages a client is owed: every event after its arrival that it did not originate, until it left. */
  function Owed(history: seq<Event>, id: int): seq<string> {
    if history == [] then []
    else
      var before, e := history[..|history| - 1], history[|history| - 1];
      if Left(id) in before then Owed(before, id)
      else if e == Arrived(id) then []
      else if e.id == id then Owed(before, id)
      else Owed(before, id) + [Text(e)]
  }

  predicate DistinctFds(members: seq<Member>) {
    forall i, j :: 0 <= i < j < |members| ==> members[i].fd != members[j].fd
  }

  predicate IncreasingIds(members: seq<Member>) {
    forall i, j :: 0 <= i < j < |members| ==> members[i].id < members[j].id
  }

  predicate HasId(members: seq<Member>, id: int) {
    exists k :: 0 <= k < |members| && members[k].id == id
  }

  /** The list and the descriptor set agree, and ids are handed out in order. */
  predicate ListInv(c: Chat) {
    && DistinctFds(c.members) && IncreasingIds(c.members)
    && c.open == {c.sock} + Fds(c.members) && c.sock !in Fds(c.members) && c.sock >= 0
    && forall k :: 0 <= k < |c.members| ==> 0 <= c.members[k].id < c.nextId && c.members[k].fd >= 0
  }

  /** Everyone who ever joined has been sent exactly what it was owed. */
  ghost predicate MailInv(c: Chat) {
    && (forall e :: e in c.history ==> 0 <= e.id < c.nextId)
    && (forall id :: 0 <= id < c.nextId ==> (HasId(c.members, id) <==> Left(id) !in c.history))
    && (forall id :: 0 <= id < c.nextId ==> Received(c.inbox, id) == Owed(c.history, id))
    && (forall id :: id in c.inbox ==> 0 <= id < c.nextId)
  }

  predicate Present(history: seq<Event>, id: int) {
    Arrived(id) in history && Left(id) !in history
  }

  /** Nobody does anything before arriving, and only those present speak or leave. */
  predicate MayFollow(history: seq<Event>, e: Event) {
    if e.Arrived? then forall x :: x in history ==> x.id != e.id else Present(history, e.id)
  }

  predicate Lawful(history: seq<Event>) {
    history == [] || (Lawful(history[..|history| - 1]) && MayFollow(history[..|history| - 1], history[|history| - 1]))
  }

  /** The history is one of clients that come, speak and go, and exactly the ids handed out have come. */
  ghost predicate HistoryInv(c: Chat) {
    Lawful(c.history) && forall id :: Arrived(id) in c.history <==> 0 <= id < c.nextId
  }

  ghost predicate Inv(c: Chat) {
    c.nextId >= 0 && ListInv(c) && MailInv(c) && HistoryInv(c)
  }

  // ---------------------------------------------------------------- one announcement

  /** send_all writes to the client with this id. */
  predicate Reaches(members: seq<Member>, except: int, writable: set<int>, id: int) {
    exists k :: 0 <= k < |members| && members[k].id == id && members[k].fd != except && members[k].fd in writable
  }

  lemma {:induction false} DeliverOnce(members: seq<Member>, except: int, writable: set<int>, text: string, inbox: Inbox, id: int)
    requires IncreasingIds(members)
    ensures var after := Deliver(members, except, writable, text, inbox);
      && Received(after, id) == Received(inbox, id) + (if Reaches(members, except, writable, id) then [text] else [])
      && (id in after ==> id in inbox || HasId(members, id))
  {
    if members == [] {
    } else {
      var init, m := members[..|members| - 1], members[|members| - 1];
      DeliverOnce(init, except, writable, text, inbox, id);
      assert Reaches(members, except, writable, id) <==>
        Reaches(init, except, writable, id) || (m.id == id && m.fd != except && m.fd in writable) by {
        assert forall k :: 0 <= k < |init| ==> init[k] == members[k];
      }
      assert m.id == id ==> !Reaches(init, except, writable, id);
      assert HasId(init, id) ==> HasId(members, id);
    }
  }

  lemma OwedStep(history: seq<Event>, e: Event, id: int)
    ensures Owed(history + [e], id) ==
      if Left(id) in history then Owed(history, id)
      else if e == Arrived(id) then []
      else if e.id == id then Owed(history, id)
      else Owed(history, id) + [Text(e)]
  {
    assert (history + [e])[..|history|] == history;
  }

  /** An announcement that reaches everyone present but its originator keeps every mailbox what it should be. */
  lemma AnnounceMail(c: Chat, except: int, e: Event)
    requires IncreasingIds(c.members)
    requires forall id :: 0 <= id < c.nextId && id != e.id ==> Received(c.inbox, id) == Owed(c.history, id)
    requires forall id :: 0 <= id < c.nextId && id != e.id ==>
      (Reaches(c.members, except, c.writable, id) <==> Left(id) !in c.history)
    requires Received(c.inbox, e.id) == Owed(c.history + [e], e.id) && !Reaches(c.members, except, c.writable, e.id)
    ensures var d := Announce(c, except, e);
      forall id :: 0 <= id < c.nextId ==> Received(d.inbox, id) == Owed(d.history, id)
    ensures var d := Announce(c, except, e);
      forall id :: id in d.inbox ==> id in c.inbox || HasId(c.members, id)
  {
    hide Received, Owed, Deliver, Reaches, HasId, Text;
    forall id | 0 <= id < c.nextId
      ensures var d := Announce(c, except, e); Received(d.inbox, id) == Owed(d.history, id)
    {
      DeliverOnce(c.members, except, c.writable, Text(e), c.inbox, id);
      OwedStep(c.history, e, id);
    }
    forall id
      ensures var d := Announce(c, except, e); id in d.inbox ==> id in c.inbox || HasId(c.members, id)
    {
      DeliverOnce(c.members, except, c.writable, Text(e), c.inbox, id);
    }
  }

  // ---------------------------------------------------------------- arrival

  lemma JoinedMembers(members: seq<Member>, m: Member)
    ensures Fds(members + [m]) == Fds(members) + {m.fd}
    ensures forall id :: HasId(members + [m], id) <==> HasId(members, id) || id == m.id
  {
    var joined := members + [m];
    assert forall x :: x in joined <==> x in members || x == m;
    assert joined[|members|] == m;
    assert forall k :: 0 <= k < |members| ==> joined[k] == members[k];
  }

  lemma AcceptKeepsList(c: Chat, fd: int)
    requires ListInv(c) && c.nextId >= 0 && fd >= 0 && fd !in c.open
    ensures ListInv(Accept(c, fd))
  {
    hide Deliver, DistinctFds, IncreasingIds, Fds;
    JoinedMembers(c.members, Member(fd, c.nextId));
    JoinedOrder(c.members, Member(fd, c.nextId));
  }

  lemma JoinedOrder(members: seq<Member>, m: Member)
    requires DistinctFds(members) && IncreasingIds(members) && m.fd !in Fds(members)
    requires forall k :: 0 <= k < |members| ==> members[k].id < m.id
    ensures DistinctFds(members + [m]) && IncreasingIds(members + [m])
  {
    assert forall k :: 0 <= k < |members| ==> members[k].fd in Fds(members);
  }

  lemma AcceptKeepsMail(c: Chat, fd: int)
    requires Inv(c) && fd !in c.open && Fds(c.members) <= c.writable
    ensures MailInv(Accept(c, fd))
  {
    hide Received, Owed, Deliver, Text, HasId, Reaches, HistoryInv;
    var id := c.nextId;
    var joined := c.(members := c.members + [Member(fd, id)], nextId := id + 1);
    JoinedMembers(c.members, Member(fd, id));
    forall i
      ensures Reaches(joined.members, fd, c.writable, i) <==> HasId(c.members, i)
    {
      NewcomerExcepted(c.members, Member(fd, id), c.writable, i);
    }
    HasIdBounds(c);
    NothingForStrangers(c, id);
    AnnounceMail(joined, fd, Arrived(id));
    InHistory(c.history, Arrived(id));
  }

  lemma AcceptKeepsInv(c: Chat, fd: int)
    requires Inv(c) && fd >= 0 && fd !in c.open && Fds(c.members) <= c.writable
    ensures Inv(Accept(c, fd))
  {
    hide ListInv, MailInv, HistoryInv;
    AcceptKeepsList(c, fd);
    AcceptKeepsMail(c, fd);
    NobodyYet(c);
    HistoryGrows(c, Accept(c, fd), Arrived(c.nextId));
  }

  lemma NobodyYet(c: Chat)
    requires MailInv(c)
    ensures MayFollow(c.history, Arrived(c.nextId))
  {
  }

  /** One more event keeps the history lawful; an arrival is that of the next id. */
  lemma HistoryGrows(c: Chat, d: Chat, e: Event)
    requires HistoryInv(c) && d.history == c.history + [e] && MayFollow(c.history, e)
    requires if e.Arrived? then e.id == c.nextId >= 0 && d.nextId == c.nextId + 1 else d.nextId == c.nextId
    ensures HistoryInv(d)
  {
    hide Lawful;
    InHistory(c.history, e);
    LawfulStep(c.history, e);
  }

  lemma LawfulStep(history: seq<Event>, e: Event)
    ensures Lawful(history + [e]) <==> Lawful(history) && MayFollow(history, e)
  {
    hide MayFollow;
    assert (history + [e])[..|history|] == history;
  }

  lemma NewcomerExcepted(members: seq<Member>, m: Member, writable: set<int>, id: int)
    requires Fds(members) <= writable && m.fd !in Fds(members)
    ensures Reaches(members + [m], m.fd, writable, id) <==> HasId(members, id)
  {
    MemberReached(members, m.fd, writable, id);
    assert forall k :: 0 <= k < |members| ==> (members + [m])[k] == members[k];
  }

  /** Among members with all descriptors writable and none of them excluded, everyone is reached. */
  lemma MemberReached(members: seq<Member>, except: int, writable: set<int>, id: int)
    requires Fds(members) <= writable && except !in Fds(members)
    ensures Reaches(members, except, writable, id) <==> HasId(members, id)
  {
    forall k | 0 <= k < |members|
      ensures members[k].fd in writable && members[k].fd != except
    {
      assert members[k].fd in Fds(members);
    }
  }

  lemma NothingForStrangers(c: Chat, id: int)
    requires MailInv(c) && id == c.nextId
    ensures Received(c.inbox, id) == [] == Owed(c.history + [Arrived(id)], id)
    ensures Left(id) !in c.history
  {
    OwedStep(c.history, Arrived(id), id);
  }

  // ---------------------------------------------------------------- departure

  lemma {:induction false} IdAt(members: seq<Member>, fd: int, k: nat)
    requires k < |members| && members[k].fd == fd && DistinctFds(members)
    ensures IdOf(members, fd) == members[k].id
  {
    if k == 0 {
    } else {
      IdAt(members[1..], fd, k - 1);
    }
  }

  lemma {:induction false} WithoutAt(members: seq<Member>, fd: int, k: nat)
    requires k < |members| && members[k].fd == fd && DistinctFds(members)
    ensures Without(members, fd) == members[..k] + members[k + 1..]
  {
    if k == 0 {
    } else {
      WithoutAt(members[1..], fd, k - 1);
    }
  }

  lemma OneLeftOut(members: seq<Member>, k: nat)
    requires k < |members|
    ensures OneRemoved(members, k, members[..k] + members[k + 1..])
  {
  }

  /** get_id and rm_client agree on the client: the one at position k. */
  lemma RemovedAt(members: seq<Member>, fd: int, k: nat)
    requires k < |members| && members[k].fd == fd && DistinctFds(members)
    ensures IdOf(members, fd) == members[k].id
    ensures Without(members, fd) == members[..k] + members[k + 1..]
    ensures OneRemoved(members, k, Without(members, fd))
  {
    hide IdOf, Without, DistinctFds, OneRemoved;
    IdAt(members, fd, k);
    WithoutAt(members, fd, k);
    OneLeftOut(members, k);
  }

  lemma FdAt(members: seq<Member>, fd: int) returns (k: nat)
    requires fd in Fds(members)
    ensures k < |members| && members[k].fd == fd
  {
    var m :| m in members && m.fd == fd;
    k :| k < |members| && members[k] == m;
  }

  /** rest is members without the one at k. */
  predicate OneRemoved(members: seq<Member>, k: nat, rest: seq<Member>) {
    && k < |members| && |rest| == |members| - 1
    && (forall i :: 0 <= i < k ==> rest[i] == members[i])
    && (forall i :: k <= i < |rest| ==> rest[i] == members[i + 1])
  }

  lemma RemovalOrder(members: seq<Member>, k: nat, rest: seq<Member>)
    requires OneRemoved(members, k, rest) && DistinctFds(members) && IncreasingIds(members)
    ensures DistinctFds(rest) && IncreasingIds(rest)
    ensures forall m :: m in rest ==> m in members
  {
  }

  lemma RemovalFds(members: seq<Member>, k: nat, rest: seq<Member>)
    requires OneRemoved(members, k, rest) && DistinctFds(members)
    ensures Fds(rest) == Fds(members) - {members[k].fd}
  {
    forall f
      ensures f in Fds(rest) <==> f in Fds(members) && f != members[k].fd
    {
      if f in Fds(members) && f != members[k].fd {
        var i := FdAt(members, f);
        assert rest[if i < k then i else i - 1] == members[i];
      }
      if f in Fds(rest) {
        var i := FdAt(rest, f);
        assert rest[i] == members[if i < k then i else i + 1];
      }
    }
  }

  lemma RemovalIds(members: seq<Member>, k: nat, rest: seq<Member>)
    requires OneRemoved(members, k, rest) && IncreasingIds(members)
    ensures forall id :: HasId(rest, id) <==> HasId(members, id) && id != members[k].id
  {
    forall id
      ensures HasId(rest, id) <==> HasId(members, id) && id != members[k].id
    {
      if HasId(members, id) && id != members[k].id {
        var i :| 0 <= i < |members| && members[i].id == id;
        assert rest[if i < k then i else i - 1].id == id;
      }
      if HasId(rest, id) {
        var i :| 0 <= i < |rest| && rest[i].id == id;
        assert members[if i < k then i else i + 1].id == id;
      }
    }
  }

  lemma LeaveKeepsList(c: Chat, fd: int, k: nat)
    requires ListInv(c) && OneRemoved(c.members, k, Without(c.members, fd)) && c.members[k].fd == fd
    ensures ListInv(Leave(c, fd))
  {
    hide Without, Deliver, IdOf;
    var rest := Without(c.members, fd);
    RemovalOrder(c.members, k, rest);
    RemovalFds(c.members, k, rest);
    assert Leave(c, fd).open == {c.sock} + Fds(rest);
  }

  lemma LeaveKeepsMail(c: Chat, fd: int, k: nat)
    requires Inv(c) && OneRemoved(c.members, k, Without(c.members, fd)) && c.members[k].fd == fd
    requires IdOf(c.members, fd) == c.members[k].id && Fds(c.members) <= c.writable
    ensures MailInv(Leave(c, fd))
  {
    hide Received, Owed, Deliver, Text, HasId, Reaches, IdOf, Without, HistoryInv;
    var id, rest := c.members[k].id, Without(c.members, fd);
    RemovalOrder(c.members, k, rest);
    RemovalFds(c.members, k, rest);
    RemovalIds(c.members, k, rest);
    IdPresent(c.members, k);
    forall i
      ensures Reaches(rest, fd, c.writable, i) <==> HasId(rest, i)
    {
      MemberReached(rest, fd, c.writable, i);
    }
    assert Left(id) !in c.history;
    OwedStep(c.history, Left(id), id);
    AnnounceMail(c.(members := rest), fd, Left(id));
    HasIdBounds(c);
    InHistory(c.history, Left(id));
  }

  lemma LeaveKeepsInv(c: Chat, fd: int)
    requires Inv(c) && fd in Fds(c.members) && Fds(c.members) <= c.writable
    ensures Inv(Leave(c, fd))
  {
    var k := FdAt(c.members, fd);
    RemovedAt(c.members, fd, k);
    hide MailInv, HistoryInv, OneRemoved, IdOf, Without;
    LeaveKeepsList(c, fd, k);
    LeaveKeepsMail(c, fd, k);
    MemberIsPresent(c, k);
    HistoryGrows(c, Leave(c, fd), Left(c.members[k].id));
  }

  lemma MemberIsPresent(c: Chat, k: nat)
    requires Inv(c) && k < |c.members|
    ensures Present(c.history, c.members[k].id)
  {
    hide Lawful, Received, Owed, HasId;
    IdPresent(c.members, k);
  }

  lemma HasIdBounds(c: Chat)
    requires ListInv(c)
    ensures forall id :: HasId(c.members, id) ==> 0 <= id < c.nextId
  {
  }

  lemma InHistory(history: seq<Event>, e: Event)
    ensures forall x :: x in history + [e] <==> x in history || x == e
  {
  }

  lemma IdPresent(members: seq<Member>, k: nat)
    requires k < |members|
    ensures HasId(members, members[k].id)
  {
  }

  // ---------------------------------------------------------------- lines

  lemma LineKeepsMail(c: Chat, fd: int, line: string, k: nat)
    requires Inv(c) && k < |c.members| && c.members[k].fd == fd && Fds(c.members) <= c.writable
    ensures MailInv(Announce(c, fd, Said(c.members[k].id, line)))
  {
    hide Received, Owed, Deliver, Text, HasId, Reaches, HistoryInv;
    IdPresent(c.members, k);
    var id := c.members[k].id;
    var e := Said(id, line);
    forall i
      ensures Reaches(c.members, fd, c.writable, i) <==> HasId(c.members, i) && i != id
    {
      OthersReached(c.members, k, c.writable, i);
    }
    assert Left(id) !in c.history;
    OwedStep(c.history, e, id);
    AnnounceMail(c, fd, e);
    HasIdBounds(c);
    InHistory(c.history, e);
  }

  lemma LineKeepsInv(c: Chat, fd: int, line: string)
    requires Inv(c) && fd in Fds(c.members) && Fds(c.members) <= c.writable
    ensures Inv(Announce(c, fd, Said(IdOf(c.members, fd), line)))
  {
    hide MailInv, HistoryInv, Deliver, Text, IdOf, Without;
    var k := FdAt(c.members, fd);
    RemovedAt(c.members, fd, k);
    var e := Said(c.members[k].id, line);
    LineKeepsMail(c, fd, line, k);
    MemberIsPresent(c, k);
    HistoryGrows(c, Announce(c, fd, e), e);
  }

  lemma OthersReached(members: seq<Member>, k: nat, writable: set<int>, id: int)
    requires k < |members| && DistinctFds(members) && IncreasingIds(members) && Fds(members) <= writable
    ensures Reaches(members, members[k].fd, writable, id) <==> HasId(members, id) && id != members[k].id
  {
    forall i | 0 <= i < |members|
      ensures members[i].fd in writable
    {
      assert members[i].fd in Fds(members);
    }
  }

  lemma {:induction false} SayKeepsInv(c: Chat, fd: int, j: nat, text: string)
    requires Inv(c) && fd in Fds(c.members) && Fds(c.members) <= c.writable
    ensures Inv(Say(c, fd, j, text))
    decreases |text|
  {
    hide ListInv, MailInv, HistoryInv, Announce, IdOf, Put;
    if text == "" {
    } else {
      var line := Put(c.line, j, text[0]);
      if text[0] == '\n' {
        LineKeepsInv(c, fd, line);
        var d := Announce(c, fd, Said(IdOf(c.members, fd), line));
        AnnounceFrame(c, fd, Said(IdOf(c.members, fd), line));
        LineBufferIsFree(d, "");
        SayKeepsInv(d.(line := ""), fd, 0, text[1..]);
      } else {
        LineBufferIsFree(c, line);
        SayKeepsInv(c.(line := line), fd, j + 1, text[1..]);
      }
    }
  }

  lemma AnnounceFrame(c: Chat, except: int, e: Event)
    ensures Announce(c, except, e).members == c.members && Announce(c, except, e).writable == c.writable
  {
  }

  lemma LineBufferIsFree(c: Chat, line: string)
    requires Inv(c)
    ensures Inv(c.(line := line))
  {
  }

  // ---------------------------------------------------------------- whole turns and whole runs

  /** select reports open descriptors, and accept returns one that is not open. */
  predicate Possible(c: Chat, t: Tour) {
    t.ready <= c.open && (c.sock in t.ready ==> t.newFd >= 0 && t.newFd !in c.open)
  }

  lemma {:induction false} SweepKeepsInv(c: Chat, t: Tour, fd: nat)
    requires Inv(c) && Possible(c, t) && Fds(c.members) <= c.writable
    ensures Inv(Sweep(c, t, fd))
    decreases MaxFd(c.members, c.sock) + 1 - fd
  {
    hide MailInv, HistoryInv, Say, Accept, Leave;
    if fd > MaxFd(c.members, c.sock) {
    } else {
      if fd !in t.ready {
        SweepKeepsInv(c, t, fd + 1);
      } else if fd == c.sock {
        AcceptKeepsInv(c, t.newFd);
      } else if fd !in t.input || t.input[fd] == "" {
        LeaveKeepsInv(c, fd);
      } else {
        SayKeeps(c, fd, 0, t.input[fd]);
        SayKeepsInv(c, fd, 0, t.input[fd]);
        SweepKeepsInv(Say(c, fd, 0, t.input[fd]), t, fd + 1);
      }
    }
  }

  lemma WritableIsFree(c: Chat)
    requires Inv(c)
    ensures Inv(c.(writable := c.open)) && Fds(c.members) <= c.open
  {
  }

  lemma SweepStep(c: Chat, t: Tour, fd: nat)
    requires fd <= MaxFd(c.members, c.sock)
    ensures Sweep(c, t, fd) ==
      if fd !in t.ready then Sweep(c, t, fd + 1)
      else if fd == c.sock then Accept(c, t.newFd)
      else if fd !in t.input || t.input[fd] == "" then Leave(c, fd)
      else Sweep(Say(c, fd, 0, t.input[fd]), t, fd + 1)
  {
  }

  lemma SweepEnds(c: Chat, t: Tour, fd: nat)
    requires fd > MaxFd(c.members, c.sock)
    ensures Sweep(c, t, fd) == c
  {
  }

  /** A ready descriptor other than the listening one belongs to a listed client, with an id that was handed out. */
  lemma ReadyIsListed(c: Chat, t: Tour, fd: int)
    requires Inv(c) && Possible(c, t) && fd in t.ready && fd != c.sock
    ensures fd in Fds(c.members) && 0 <= IdOf(c.members, fd) < c.nextId
  {
    var k := FdAt(c.members, fd);
    RemovedAt(c.members, fd, k);
  }

  lemma TurnKeepsInv(c: Chat, t: Tour)
    requires Inv(c) && Possible(c, t)
    ensures Inv(MainLoopTurn(c, t))
  {
    hide Inv, Sweep;
    WritableIsFree(c);
    SweepKeepsInv(c.(writable := c.open), t, 0);
  }

  /** Every turn of the run is one that the environment can cause. */
  predicate PossibleRun(sock: int, tours: seq<Tour>) {
    tours == [] ||
    (var before := tours[..|tours| - 1];
     PossibleRun(sock, before) && Possible(Run(Start(sock), before), tours[|tours| - 1]))
  }

  lemma {:induction false} PossiblePrefix(sock: int, tours: seq<Tour>, k: nat)
    requires PossibleRun(sock, tours) && k <= |tours|
    ensures PossibleRun(sock, tours[..k])
    decreases |tours|
  {
    if k == |tours| {
      assert tours[..k] == tours;
    } else {
      assert tours[..|tours| - 1][..k] == tours[..k];
      PossiblePrefix(sock, tours[..|tours| - 1], k);
    }
  }

  /** A turn admits at most one client. */
  lemma {:induction false} SweepArrivals(c: Chat, t: Tour, fd: nat)
    ensures c.nextId <= Sweep(c, t, fd).nextId <= c.nextId + 1
    decreases MaxFd(c.members, c.sock) + 1 - fd
  {
    hide Say, Deliver, Without, IdOf;
    if fd > MaxFd(c.members, c.sock) {
    } else {
      if fd !in t.ready {
        SweepArrivals(c, t, fd + 1);
      } else if fd != c.sock && fd in t.input && t.input[fd] != "" {
        SayKeeps(c, fd, 0, t.input[fd]);
        SweepArrivals(Say(c, fd, 0, t.input[fd]), t, fd + 1);
      }
    }
  }

  lemma TurnArrivals(c: Chat, t: Tour)
    ensures MainLoopTurn(c, t).nextId <= c.nextId + 1
  {
    SweepArrivals(c.(writable := c.open), t, 0);
  }

  /** In every run, at every loop top: the set is the listening socket and the listed descriptors, which are
      distinct; ids increase along the list; and every client that ever joined has been sent exactly the
      events since its arrival that it did not originate, in order, each once. */
  lemma {:induction false} RunKeepsInv(sock: int, tours: seq<Tour>)
    requires sock >= 0 && PossibleRun(sock, tours)
    ensures Inv(Run(Start(sock), tours))
  {
    hide MainLoopTurn, Inv;
    if tours == [] {
      StartInv(sock);
    } else {
      RunKeepsInv(sock, tours[..|tours| - 1]);
      TurnKeepsInv(Run(Start(sock), tours[..|tours| - 1]), tours[|tours| - 1]);
    }
  }

  // ---------------------------------------------------------------- what a client has been sent

  /** In a lawful history an arrival is its client's first event and comes once; everything else its client
      does comes after its arrival and before it leaves. */
  lemma {:induction false} LawfulOrder(history: seq<Event>, k: nat)
    requires Lawful(history) && k < |history|
    ensures MayFollow(history[..k], history[k])
    decreases |history|
  {
    hide MayFollow;
    var init := history[..|history| - 1];
    if k < |init| {
      assert init[..k] == history[..k];
      LawfulOrder(init, k);
    } else {
      assert init == history[..k];
    }
  }

  /** How the others are told of an event. */
  function Told(e: Event): string {
    var number := Decimal(e.id);
    if e.Arrived? then "server: client " + number + " just arrived\n"
    else if e.Left? then "server: client " + number + " just left\n"
    else "client " + number + ": " + e.line
  }

  lemma TextIsTold(e: Event)
    ensures Text(e) == Told(e)
  {
    hide Decimal;
  }

  /** What a client is to be sent of the events after its arrival: those that others originate, until it leaves. */
  function Heard(events: seq<Event>, id: int): seq<string> {
    if events == [] || events[0] == Left(id) then []
    else (if events[0].id == id then [] else [Told(events[0])]) + Heard(events[1..], id)
  }

  lemma {:induction false} HeardAppend(events: seq<Event>, e: Event, id: int)
    ensures Heard(events + [e], id) ==
      if Left(id) in events || e.id == id then Heard(events, id) else Heard(events, id) + [Told(e)]
  {
    hide Told;
    if events == [] {
      assert events + [e] == [e] && [e][1..] == [];
    } else {
      assert (events + [e])[1..] == events[1..] + [e];
      HeardAppend(events[1..], e, id);
    }
  }

  /** The client arrives at this position and nowhere else, and does nothing before. */
  predicate ArrivesAt(history: seq<Event>, id: int, a: nat) {
    && a < |history| && history[a] == Arrived(id)
    && forall k :: 0 <= k < |history| && history[k].id == id ==> k == a || (a < k && !history[k].Arrived?)
  }

  lemma ArrivalKept(history: seq<Event>, e: Event, id: int, a: nat)
    requires ArrivesAt(history, id, a) && MayFollow(history, e)
    ensures ArrivesAt(history + [e], id, a)
    ensures Left(id) in history <==> Left(id) in history[a + 1..]
  {
    assert history[a] in history;
    if Left(id) in history {
      var k :| 0 <= k < |history| && history[k] == Left(id);
      assert history[a + 1..][k - a - 1] == Left(id);
    }
  }

  /** What a client is owed counts from its arrival, which is in the history exactly once. */
  lemma {:induction false} OwedSinceArrival(history: seq<Event>, id: int) returns (a: nat)
    requires Lawful(history) && Arrived(id) in history
    ensures ArrivesAt(history, id, a) && Owed(history, id) == Heard(history[a + 1..], id)
  {
    hide Text, Told, Owed, Heard, ArrivesAt, MayFollow;
    var init, e := history[..|history| - 1], history[|history| - 1];
    assert history == init + [e];
    OwedStep(init, e, id);
    TextIsTold(e);
    if Arrived(id) in init {
      a := OwedSinceArrival(init, id);
      ArrivalKept(init, e, id, a);
      ArrivesOnce(init, e, id);
      HeardLast(init, e, id, a);
    } else {
      a := |init|;
      LeftNeedsArrival(init, id);
      ArrivesNow(init, id);
    }
  }

  lemma ArrivesOnce(history: seq<Event>, e: Event, id: int)
    requires Arrived(id) in history && MayFollow(history, e)
    ensures e != Arrived(id)
  {
  }

  lemma HeardLast(history: seq<Event>, e: Event, id: int, a: nat)
    requires ArrivesAt(history, id, a)
    ensures Heard((history + [e])[a + 1..], id) ==
      if Left(id) in history[a + 1..] || e.id == id then Heard(history[a + 1..], id)
      else Heard(history[a + 1..], id) + [Told(e)]
  {
    assert (history + [e])[a + 1..] == history[a + 1..] + [e];
    HeardAppend(history[a + 1..], e, id);
  }

  lemma ArrivesNow(history: seq<Event>, id: int)
    requires forall e :: e in history ==> e.id != id
    ensures ArrivesAt(history + [Arrived(id)], id, |history|) && Heard((history + [Arrived(id)])[|history| + 1..], id) == []
  {
  }

  /** Nothing is heard of a client that has not arrived. */
  lemma {:induction false} LeftNeedsArrival(history: seq<Event>, id: int)
    requires Lawful(history) && Arrived(id) !in history
    ensures forall e :: e in history ==> e.id != id
  {
    if history == [] {
    } else {
      LeftNeedsArrival(history[..|history| - 1], id);
    }
  }

  /** In every run, every client that ever joined has been sent exactly the events after its arrival that it
      did not originate, in order, each once, until it left. */
  lemma SentSinceArrival(sock: int, tours: seq<Tour>, id: int) returns (a: nat)
    requires sock >= 0 && PossibleRun(sock, tours) && 0 <= id < Run(Start(sock), tours).nextId
    ensures var c := Run(Start(sock), tours);
      ArrivesAt(c.history, id, a) && Received(c.inbox, id) == Heard(c.history[a + 1..], id)
  {
    hide Run, PossibleRun, Received, Owed, Lawful;
    RunKeepsInv(sock, tours);
    a := OwedSinceArrival(Run(Start(sock), tours).history, id);
  }

  // ---------------------------------------------------------------- arrivals and departures in so many words

  lemma ReachedUnlessExcepted(members: seq<Member>, except: int, writable: set<int>, k: nat)
    requires k < |members| && members[k].fd != except && members[k].fd in writable
    ensures Reaches(members, except, writable, members[k].id)
  {
  }

  lemma NotReached(members: seq<Member>, k: nat, writable: set<int>)
    requires k < |members| && IncreasingIds(members)
    ensures !Reaches(members, members[k].fd, writable, members[k].id)
  {
  }

  /** An arrival: every listed client is sent that the newcomer has arrived, and nobody else is sent anything. */
  lemma AcceptTells(c: Chat, fd: int, id: int)
    requires Inv(c) && fd >= 0 && fd !in c.open && Fds(c.members) <= c.writable
    ensures Received(Accept(c, fd).inbox, id) == Received(c.inbox, id) +
      (if HasId(c.members, id) then ["server: client " + Decimal(c.nextId) + " just arrived\n"] else [])
    ensures !HasId(c.members, c.nextId) && HasId(Accept(c, fd).members, c.nextId)
  {
    hide Received, Owed, Deliver, HasId, Reaches, HistoryInv, Decimal;
    var m := Member(fd, c.nextId);
    var joined := c.members + [m];
    JoinedMembers(c.members, m);
    JoinedOrder(c.members, m);
    NewcomerExcepted(c.members, m, c.writable, id);
    HasIdBounds(c);
    DeliverOnce(joined, fd, c.writable, Text(Arrived(c.nextId)), c.inbox, id);
  }

  /** A departure: every client that stays is sent that this one has left, and nobody else is sent anything. */
  lemma LeaveTells(c: Chat, k: nat, id: int)
    requires Inv(c) && k < |c.members| && Fds(c.members) <= c.writable
    ensures Received(Leave(c, c.members[k].fd).inbox, id) == Received(c.inbox, id) +
      (if HasId(c.members, id) && id != c.members[k].id
       then ["server: client " + Decimal(c.members[k].id) + " just left\n"] else [])
  {
    hide Received, Owed, Deliver, HasId, Reaches, HistoryInv, Decimal, IdOf, Without;
    var fd := c.members[k].fd;
    var rest := Without(c.members, fd);
    RemovedAt(c.members, fd, k);
    RemovalOrder(c.members, k, rest);
    RemovalFds(c.members, k, rest);
    RemovalIds(c.members, k, rest);
    MemberReached(rest, fd, c.writable, id);
    DeliverOnce(rest, fd, c.writable, Text(Left(c.members[k].id)), c.inbox, id);
  }

  /** A line: every client but its sender is sent it behind the sender's id, and nobody else is sent anything. */
  lemma LineTells(c: Chat, k: nat, line: string, id: int)
    requires Inv(c) && k < |c.members| && Fds(c.members) <= c.writable
    ensures var fd := c.members[k].fd;
      Received(Announce(c, fd, Said(IdOf(c.members, fd), line)).inbox, id) == Received(c.inbox, id) +
        (if HasId(c.members, id) && id != c.members[k].id
         then ["client " + Decimal(c.members[k].id) + ": " + line] else [])
  {
    hide Received, Owed, Deliver, HasId, Reaches, HistoryInv, Decimal, IdOf, Without;
    var fd := c.members[k].fd;
    RemovedAt(c.members, fd, k);
    OthersReached(c.members, k, c.writable, id);
    DeliverOnce(c.members, fd, c.writable, Text(Said(c.members[k].id, line)), c.inbox, id);
  }

  /** A turn in which only one descriptor is ready. */
  lemma SingleReady(c: Chat, t: Tour, fd: nat)
    requires ListInv(c) && t.ready == {fd} && fd in c.open
    ensures var w := c.(writable := c.open);
      MainLoopTurn(c, t) ==
        if fd == c.sock then Accept(w, t.newFd)
        else if fd !in t.input || t.input[fd] == "" then Leave(w, fd)
        else Say(w, fd, 0, t.input[fd])
  {
    hide Sweep, Accept, Leave, Say, MaxFd;
    MaxFdCoversOpen(c);
    var w := c.(writable := c.open);
    SweepSkips(w, t, 0, fd);
    SweepStep(w, t, fd);
    if fd != c.sock && fd in t.input && t.input[fd] != "" {
      var d := Say(w, fd, 0, t.input[fd]);
      SayKeeps(w, fd, 0, t.input[fd]);
      SweepSkips(d, t, fd + 1, MaxFd(d.members, d.sock) + 1);
      SweepEnds(d, t, MaxFd(d.members, d.sock) + 1);
    }
  }

  lemma {:induction false} SweepSkips(c: Chat, t: Tour, from: nat, to: nat)
    requires from <= to <= MaxFd(c.members, c.sock) + 1 && forall fd :: from <= fd < to ==> fd !in t.ready
    ensures Sweep(c, t, from) == Sweep(c, t, to)
    decreases (to as int) - from
  {
    hide Sweep, MaxFd;
    if from == to {
    } else {
      SweepStep(c, t, from);
      SweepSkips(c, t, from + 1, to);
    }
  }

  /** In every run: when next the listening socket alone is ready, everyone connected is told of the arrival. */
  lemma ArrivalInRun(sock: int, tours: seq<Tour>, t: Tour, id: int)
    requires sock >= 0 && PossibleRun(sock, tours + [t]) && t.ready == {sock}
    ensures var c, d := Run(Start(sock), tours), Run(Start(sock), tours + [t]);
      Received(d.inbox, id) == Received(c.inbox, id) +
        (if HasId(c.members, id) then ["server: client " + Decimal(c.nextId) + " just arrived\n"] else [])
  {
    hide MainLoopTurn, Accept, Received, Decimal, HasId, Inv, ListInv;
    NextTurn(sock, tours, t);
    var c := Run(Start(sock), tours);
    WritableIsFree(c);
    ListeningSocket(c);
    SingleReady(c, t, sock);
    AcceptTells(c.(writable := c.open), t.newFd, id);
  }

  /** In every run: when next one client's connection alone is found closed, everyone else is told that it left. */
  lemma DepartureInRun(sock: int, tours: seq<Tour>, t: Tour, k: nat, id: int)
    requires sock >= 0 && PossibleRun(sock, tours + [t]) && k < |Run(Start(sock), tours).members|
    requires var fd := Run(Start(sock), tours).members[k].fd; t.ready == {fd} && (fd !in t.input || t.input[fd] == "")
    ensures var c, d := Run(Start(sock), tours), Run(Start(sock), tours + [t]);
      Received(d.inbox, id) == Received(c.inbox, id) +
        (if HasId(c.members, id) && id != c.members[k].id
         then ["server: client " + Decimal(c.members[k].id) + " just left\n"] else [])
  {
    hide MainLoopTurn, Leave, Received, Decimal, HasId, Inv, ListInv;
    NextTurn(sock, tours, t);
    var c := Run(Start(sock), tours);
    WritableIsFree(c);
    ListedSocket(c, k);
    SingleReady(c, t, c.members[k].fd);
    LeaveTells(c.(writable := c.open), k, id);
  }

  lemma NextTurn(sock: int, tours: seq<Tour>, t: Tour)
    requires sock >= 0 && PossibleRun(sock, tours + [t])
    ensures var c := Run(Start(sock), tours);
      Inv(c) && Possible(c, t) && Run(Start(sock), tours + [t]) == MainLoopTurn(c, t) && c.sock == sock
  {
    hide MainLoopTurn, Inv, Possible;
    assert (tours + [t])[..|tours|] == tours;
    RunKeepsInv(sock, tours);
    RunKeepsSock(sock, tours);
  }

  lemma {:induction false} RunKeepsSock(sock: int, tours: seq<Tour>)
    ensures Run(Start(sock), tours).sock == sock
  {
    hide Sweep;
    if tours == [] {
    } else {
      RunKeepsSock(sock, tours[..|tours| - 1]);
      var c := Run(Start(sock), tours[..|tours| - 1]);
      SweepKeepsSock(c.(writable := c.open), tours[|tours| - 1], 0);
    }
  }

  lemma {:induction false} SweepKeepsSock(c: Chat, t: Tour, fd: nat)
    ensures Sweep(c, t, fd).sock == c.sock
    decreases MaxFd(c.members, c.sock) + 1 - fd
  {
    hide Say, Deliver, Without, IdOf, Text;
    if fd > MaxFd(c.members, c.sock) {
    } else if fd !in t.ready {
      SweepKeepsSock(c, t, fd + 1);
    } else if fd != c.sock && fd in t.input && t.input[fd] != "" {
      SayKeeps(c, fd, 0, t.input[fd]);
      SweepKeepsSock(Say(c, fd, 0, t.input[fd]), t, fd + 1);
    }
  }

  lemma ListeningSocket(c: Chat)
    requires Inv(c)
    ensures ListInv(c) && c.sock in c.open && c.sock >= 0
  {
  }

  lemma ListedSocket(c: Chat, k: nat)
    requires Inv(c) && k < |c.members|
    ensures ListInv(c) && c.members[k].fd in c.open && c.members[k].fd >= 0 && c.members[k].fd != c.sock
  {
    assert c.members[k].fd in Fds(c.members);
  }

  lemma StartInv(sock: int)
    requires sock >= 0
    ensures Inv(Start(sock))
  {
  }

  /** get_max_fd bounds the set, so neither select nor the loop misses a descriptor. */
  lemma MaxFdCoversOpen(c: Chat)
    requires ListInv(c)
    ensures forall fd :: fd in c.open ==> 0 <= fd <= MaxFd(c.members, c.sock)
  {
    forall fd | fd in c.open
      ensures 0 <= fd <= MaxFd(c.members, c.sock)
    {
      if fd != c.sock {
        var k := FdAt(c.members, fd);
      }
    }
  }

  // ---------------------------------------------------------------- the buffers

  const TEXT_SIZE := 42 * 4096
  const MSG_SIZE := 42

  /** What is announced fits the buffer it is printed into, terminator included. */
  lemma AnnouncementsFit(e: Event)
    requires 0 <= e.id <= INT_MAX
    ensures e.Said? && |e.line| < TEXT_SIZE ==> |Text(e)| < TEXT_SIZE + 42
    ensures !e.Said? ==> |Text(e)| < MSG_SIZE
  {
    hide Decimal;
    DecimalLength(e.id);
  }
}
