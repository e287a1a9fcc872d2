/** The "active client" token of one server: file_descriptors.cpp, and the places in webserver.cpp and
    server.cpp that add, remove and activate clients. */
module ActiveClient {

  datatype Client = Client(fd: int, active: bool)

  // ---------------------------------------------------------------- what the functions compute

  /** The first client after a client with this descriptor. */
  predicate Follows(clients: seq<Client>, fd: int, i: int) {
    0 < i < |clients| && clients[i - 1].fd == fd && clients[i].fd != fd
  }

  predicate Restarts(clients: seq<Client>, fd: int) {
    forall i :: 0 <= i < |clients| ==> !Follows(clients, fd, i)
  }

  /** update_active_client: the client after the given one becomes active, or else the first. */
  function PassToken(clients: seq<Client>, fd: int): (after: seq<Client>)
    ensures |after| == |clients|
    ensures forall i :: 0 <= i < |clients| ==>
      after[i] == Client(clients[i].fd, Follows(clients, fd, i) || (i == 0 && Restarts(clients, fd)))
  {
    seq(|clients|, i requires 0 <= i < |clients| =>
      Client(clients[i].fd, Follows(clients, fd, i) || (i == 0 && Restarts(clients, fd))))
  }

  /** vector::push_back of a new client, which is activated only when it is alone. */
  function Enlist(clients: seq<Client>, fd: int): seq<Client> {
    clients + [Client(fd, clients == [])]
  }

  /** Removal of the first client with this descriptor. */
  function Without(clients: seq<Client>, fd: int): seq<Client> {
    if clients == [] then [] else if clients[0].fd == fd then clients[1..] else [clients[0]] + Without(clients[1..], fd)
  }

  lemma {:induction false} WithoutFirst(clients: seq<Client>, fd: int, at: nat)
    requires at <= |clients| && (forall i :: 0 <= i < at ==> clients[i].fd != fd)
    requires at < |clients| ==> clients[at].fd == fd
    ensures Without(clients, fd) == if at < |clients| then clients[..at] + clients[at + 1..] else clients
  {
    if at == 0 {
    } else {
      WithoutFirst(clients[1..], fd, at - 1);
      assert clients == [clients[0]] + clients[1..];
    }
  }

  predicate TimedOut(recorded: int, now: int, timeOut: int) {
    recorded != 0 && now - recorded >= timeOut
  }

  // ---------------------------------------------------------------- the vector and the functions over it

  class Server {
    var clients: seq<Client>
    var timeOutMonitor: map<int, int>
    var readBuffer: set<int>

    constructor ()
      ensures clients == [] && timeOutMonitor == map[] && readBuffer == {}
    {
      clients, timeOutMonitor, readBuffer := [], map[], {};
    }

    method UpdateActiveClient(clientFd: int)
      requires clients != []
      modifies this`clients
      ensures clients == PassToken(old(clients), clientFd)
    {
      var activate, restartCycle := false, true;
      var it := 0;
      while it < |clients|
        invariant 0 <= it <= |clients| == |old(clients)|
        invariant activate <==> it > 0 && old(clients)[it - 1].fd == clientFd
        invariant restartCycle <==> (forall i :: 0 <= i < it ==> !Follows(old(clients), clientFd, i))
        invariant forall i :: 0 <= i < it ==>
          clients[i] == Client(old(clients)[i].fd, Follows(old(clients), clientFd, i))
        invariant forall i :: it <= i < |clients| ==> clients[i] == old(clients)[i]
      {
        var fd := clients[it].fd;
        assert Follows(old(clients), clientFd, it) <==> activate && fd != clientFd;
        clients := clients[it := Client(fd, false)];
        if fd == clientFd {
          activate := true;
        } else if activate {
          clients := clients[it := Client(fd, true)];
          activate := false;
          restartCycle := false;
        }
        it := it + 1;
      }
      if restartCycle {
        clients := clients[0 := Client(clients[0].fd, true)];
      }
    }

    /** The accepting branch of run. */
    method AcceptClient(newFd: int, now: int)
      modifies this
      ensures clients == old(clients) + [Client(newFd, old(clients) == [])]
      ensures timeOutMonitor == old(timeOutMonitor)[newFd := now] && readBuffer == old(readBuffer) + {newFd}
    {
      SetTimeOut(newFd, now);
      readBuffer := readBuffer + {newFd};
      clients := clients + [Client(newFd, false)];
      if |clients| == 1 {
        clients := clients[0 := Client(clients[0].fd, true)];
      }
    }

    /** Erases the client if its last recorded activity is too long ago. */
    method CheckTimeOut(clientFd: int, now: int, timeOut: int)
      requires clientFd in timeOutMonitor
      modifies this
      ensures timeOutMonitor == old(timeOutMonitor)
      ensures clients == if timeOutMonitor[clientFd] != 0 && now - timeOutMonitor[clientFd] >= timeOut
                         then Without(old(clients), clientFd) else old(clients)
    {
      var it := 0;
      while it < |clients|
        invariant 0 <= it <= |clients| && forall i :: 0 <= i < it ==> clients[i].fd != clientFd
        invariant clients == old(clients) && timeOutMonitor == old(timeOutMonitor)
      {
        if clients[it].fd == clientFd {
          if TimedOut(timeOutMonitor[clientFd], now, timeOut) {
            WithoutFirst(clients, clientFd, it);
            readBuffer := readBuffer - {clientFd};
            clients := clients[..it] + clients[it + 1..];
          }
          return;
        }
        it := it + 1;
      }
      WithoutFirst(clients, clientFd, it);
    }

    /** set_time_out: something was received from the client. */
    method SetTimeOut(clientFd: int, now: int)
      modifies this`timeOutMonitor
      ensures timeOutMonitor == old(timeOutMonitor)[clientFd := now]
      ensures forall later, timeOut :: later - now < timeOut ==> !TimedOut(timeOutMonitor[clientFd], later, timeOut)
    {
      timeOutMonitor := timeOutMonitor[clientFd := now];
    }

    /** The end of a pass in which the active client had nothing to do: the token moves on, then the client may expire. */
    method PassWhenIdle(clientFd: int, now: int, timeOut: int)
      requires clients != [] && clientFd in timeOutMonitor
      modifies this
      ensures timeOutMonitor == old(timeOutMonitor)
      ensures clients == var passed := PassToken(old(clients), clientFd);
        if timeOutMonitor[clientFd] != 0 && now - timeOutMonitor[clientFd] >= timeOut then Without(passed, clientFd)
        else passed
    {
      UpdateActiveClient(clientFd);
      CheckTimeOut(clientFd, now, timeOut);
    }

    /** remove_client: the one match is erased. */
    method RemoveClient(clientFd: int)
      modifies this`clients
      ensures clients == Without(old(clients), clientFd)
    {
      var it := 0;
      while it < |clients|
        invariant 0 <= it <= |clients| && clients == old(clients)
        invariant forall i :: 0 <= i < it ==> clients[i].fd != clientFd
      {
        if clients[it].fd == clientFd {
          WithoutFirst(clients, clientFd, it);
          clients := clients[..it] + clients[it + 1..];
          return;
        }
        it := it + 1;
      }
      WithoutFirst(clients, clientFd, it);
    }

    ghost function Value(): State
      reads this
    {
      State(clients, timeOutMonitor)
    }

    /** The client loop passes over all clients but the active one. */
    method ActiveFd() returns (fd: int)
      requires OneActive(clients)
      ensures clients != [] && ActiveAt(clients, ActiveIndex(clients)) && fd == clients[ActiveIndex(clients)].fd
    {
      ghost var at := ActiveIndex(clients);
      var i := 0;
      while !clients[i].active
        invariant 0 <= i <= at
        decreases at - i
      {
        i := i + 1;
      }
      fd := clients[i].fd;
    }

    /** An accepted connection, or what one pass of the client loop does to the active client. */
    method Handle(e: Event)
      requires Enabled(Value(), e) && Monitored(Value())
      modifies this
      ensures Value() == Step(old(Value()), e)
    {
      hide PassToken, Without, Dropped, Follows;
      if e.Accepted? {
        AcceptClient(e.fd, e.now);
      } else {
        var fd := ActiveFd();
        match e
        case Heard(now) => SetTimeOut(fd, now);
        case Responded => UpdateActiveClient(fd);
        case FoundIdle(now, timeOut) => PassWhenIdle(fd, now, timeOut);
        case Failed => CleanUpAfterError(fd);
      }
    }

    method CleanUpAfterError(clientFd: int)
      modifies this`clients
      ensures clients == Dropped(old(clients), clientFd)
    {
      if |clients| == 1 {
        clients := [];
      } else {
        RemoveClient(clientFd);
      }
    }
  }

  function Dropped(clients: seq<Client>, fd: int): seq<Client> {
    if |clients| == 1 then [] else Without(clients, fd)
  }

  // ---------------------------------------------------------------- where the token goes

  predicate DistinctFds(clients: seq<Client>) {
    forall i, j :: 0 <= i < j < |clients| ==> clients[i].fd != clients[j].fd
  }

  /** Exactly the client at this position is active. */
  predicate ActiveAt(clients: seq<Client>, i: int) {
    0 <= i < |clients| && forall j :: 0 <= j < |clients| ==> (clients[j].active <==> j == i)
  }

  predicate NoneActive(clients: seq<Client>) {
    forall j :: 0 <= j < |clients| ==> !clients[j].active
  }

  ghost predicate OneActive(clients: seq<Client>) {
    exists i :: ActiveAt(clients, i)
  }

  ghost predicate AtMostOneActive(clients: seq<Client>) {
    NoneActive(clients) || OneActive(clients)
  }

  function Next(i: int, n: int): int {
    if i + 1 == n then 0 else i + 1
  }

  lemma FollowsIsNext(clients: seq<Client>, i: int)
    requires DistinctFds(clients) && 0 <= i < |clients|
    ensures forall j :: Follows(clients, clients[i].fd, j) <==> j == i + 1 < |clients|
    ensures Restarts(clients, clients[i].fd) <==> i + 1 == |clients|
  {
    var fd := clients[i].fd;
    forall j
      ensures Follows(clients, fd, j) <==> j == i + 1 < |clients|
    {
    }
    if i + 1 < |clients| {
      assert Follows(clients, fd, i + 1);
    }
  }

  lemma SameFdsDistinct(clients: seq<Client>, after: seq<Client>)
    requires DistinctFds(clients) && |after| == |clients|
    requires forall i :: 0 <= i < |clients| ==> after[i].fd == clients[i].fd
    ensures DistinctFds(after)
  {
  }

  /** One pass moves the token to the next position, cyclically, and changes nothing else. */
  lemma PassMovesToNext(clients: seq<Client>, i: int)
    requires DistinctFds(clients) && 0 <= i < |clients|
    ensures var after := PassToken(clients, clients[i].fd);
      ActiveAt(after, Next(i, |clients|)) && DistinctFds(after)
  {
    hide DistinctFds, Follows, Restarts;
    FollowsIsNext(clients, i);
    SameFdsDistinct(clients, PassToken(clients, clients[i].fd));
  }

  /** k passes, each on behalf of the client that is active. */
  function PassTimes(clients: seq<Client>, i: int, k: nat): seq<Client>
    requires 0 <= i < |clients|
    decreases k
  {
    if k == 0 then clients else PassTimes(PassToken(clients, clients[i].fd), Next(i, |clients|), k - 1)
  }

  lemma ModIs(x: int, q: int, r: int, n: int)
    requires 0 <= r < n && x == q * n + r
    ensures x % n == r
  {
    var d := x / n - q;
    assert d * n == r - x % n;
    assert d > 0 ==> d * n >= n;
    assert d < 0 ==> d * n <= -n;
  }

  lemma NextIsModular(i: int, k: nat, n: int)
    requires 0 <= i < n && k > 0
    ensures (Next(i, n) + (k - 1)) % n == (i + k) % n
  {
    if i + 1 == n {
      var q, r := (k - 1) / n, (k - 1) % n;
      assert i + k == (q + 1) * n + r;
      ModIs(i + k, q + 1, r, n);
    }
  }

  /** k passes move the token k positions on, modulo the number of clients. */
  lemma {:induction false} PassesMoveAround(clients: seq<Client>, i: int, k: nat)
    requires DistinctFds(clients) && ActiveAt(clients, i)
    ensures var after := PassTimes(clients, i, k);
      |after| == |clients| && DistinctFds(after) && ActiveAt(after, (i + k) % |clients|)
    decreases k
  {
    hide PassToken, DistinctFds, Follows, Restarts;
    if k > 0 {
      PassMovesToNext(clients, i);
      PassesMoveAround(PassToken(clients, clients[i].fd), Next(i, |clients|), k - 1);
      NextIsModular(i, k, |clients|);
    } else {
      ModIs(i, 0, i, |clients|);
    }
  }

  /** Every client is reached within n passes. */
  lemma EveryoneIsReached(clients: seq<Client>, i: int, j: int) returns (k: nat)
    requires DistinctFds(clients) && ActiveAt(clients, i) && 0 <= j < |clients|
    ensures k < |clients| && ActiveAt(PassTimes(clients, i, k), j)
  {
    hide DistinctFds, PassTimes;
    k := if i <= j then j - i else j - i + |clients|;
    PassesMoveAround(clients, i, k);
    ModIs(i + k, if i <= j then 0 else 1, j, |clients|);
  }

  // ---------------------------------------------------------------- every run

  /** What can happen to the list: a client is accepted; the active one is heard from, has its response
      completed, is found idle, or fails with an error. */
  datatype Event = Accepted(fd: int, now: int) | Heard(now: int) | Responded | FoundIdle(now: int, timeOut: int) | Failed

  datatype State = State(clients: seq<Client>, monitor: map<int, int>)

  ghost predicate Enabled(s: State, e: Event) {
    if e.Accepted? then forall j :: 0 <= j < |s.clients| ==> s.clients[j].fd != e.fd
    else OneActive(s.clients)
  }

  ghost function ActiveIndex(clients: seq<Client>): (i: int)
    requires OneActive(clients)
    ensures ActiveAt(clients, i)
  {
    var i :| ActiveAt(clients, i);
    i
  }

  ghost function Step(s: State, e: Event): State {
    if !Enabled(s, e) then s
    else if e.Accepted? then State(Enlist(s.clients, e.fd), s.monitor[e.fd := e.now])
    else
      var fd := s.clients[ActiveIndex(s.clients)].fd;
      match e
      case Heard(now) => s.(monitor := s.monitor[fd := now])
      case Responded => s.(clients := PassToken(s.clients, fd))
      case FoundIdle(now, timeOut) =>
        var passed := PassToken(s.clients, fd);
        s.(clients := if fd in s.monitor && TimedOut(s.monitor[fd], now, timeOut) then Without(passed, fd) else passed)
      case _ => s.(clients := Dropped(s.clients, fd))
  }

  /** Descriptors are distinct, and the token exists whenever there is anyone to hold it. */
  ghost predicate Healthy(s: State) {
    DistinctFds(s.clients) && (s.clients != [] ==> OneActive(s.clients))
  }

  /** Someone is connected and nobody is active. */
  predicate Stalled(s: State) {
    s.clients != [] && NoneActive(s.clients)
  }

  lemma WithoutAt(clients: seq<Client>, i: int)
    requires DistinctFds(clients) && 0 <= i < |clients|
    ensures var rest := Without(clients, clients[i].fd);
      && |rest| == |clients| - 1 && DistinctFds(rest)
      && (forall j :: 0 <= j < i ==> rest[j] == clients[j])
      && (forall j :: i <= j < |rest| ==> rest[j] == clients[j + 1])
  {
    hide Without;
    WithoutFirst(clients, clients[i].fd, i);
  }

  /** Removing another client leaves the token where it is. */
  lemma RemovalKeepsToken(clients: seq<Client>, i: int, active: int)
    requires DistinctFds(clients) && 0 <= i < |clients| && ActiveAt(clients, active) && i != active
    ensures var rest := Without(clients, clients[i].fd);
      DistinctFds(rest) && ActiveAt(rest, if active < i then active else active - 1)
  {
    hide Without, DistinctFds;
    WithoutAt(clients, i);
  }

  /** Removing the active client leaves nobody active. */
  lemma RemovalLosesToken(clients: seq<Client>, i: int)
    requires DistinctFds(clients) && ActiveAt(clients, i)
    ensures var rest := Without(clients, clients[i].fd);
      DistinctFds(rest) && NoneActive(rest) && |rest| == |clients| - 1
  {
    hide Without, DistinctFds;
    WithoutAt(clients, i);
  }

  lemma NoneIsNotOne(clients: seq<Client>)
    requires NoneActive(clients)
    ensures !OneActive(clients)
  {
    forall i
      ensures !ActiveAt(clients, i)
    {
      if 0 <= i < |clients| {
        assert !clients[i].active;
      }
    }
  }

  lemma AcceptKeepsHealthy(s: State, e: Event)
    requires Healthy(s) && e.Accepted? && Enabled(s, e)
    ensures Healthy(Step(s, e))
  {
    var after := Enlist(s.clients, e.fd);
    if s.clients == [] {
      assert ActiveAt(after, 0);
    } else {
      var i :| ActiveAt(s.clients, i);
      assert ActiveAt(after, i);
    }
  }

  lemma IdleKeepsHealthy(s: State, e: Event)
    requires Healthy(s) && e.FoundIdle? && Enabled(s, e)
    ensures Healthy(Step(s, e))
  {
    var i := ActiveIndex(s.clients);
    var fd, n := s.clients[i].fd, |s.clients|;
    PassMovesToNext(s.clients, i);
    var passed := PassToken(s.clients, fd);
    if n > 1 {
      assert passed[i].fd == fd;
      RemovalKeepsToken(passed, i, Next(i, n));
    } else {
      WithoutAt(passed, i);
    }
  }

  predicate AllRecorded(clients: seq<Client>, monitor: map<int, int>) {
    forall i :: 0 <= i < |clients| ==> clients[i].fd in monitor
  }

  lemma {:induction false} RemovalKeepsRecorded(clients: seq<Client>, fd: int, monitor: map<int, int>)
    requires AllRecorded(clients, monitor)
    ensures AllRecorded(Without(clients, fd), monitor)
  {
    if clients == [] {
    } else {
      RemovalKeepsRecorded(clients[1..], fd, monitor);
    }
  }

  lemma PassKeepsRecorded(clients: seq<Client>, fd: int, monitor: map<int, int>)
    requires AllRecorded(clients, monitor)
    ensures AllRecorded(PassToken(clients, fd), monitor)
  {
  }

  /** Everyone in the list has a recorded time, so check_time_out finds one for the client it is called for. */
  predicate Monitored(s: State) {
    AllRecorded(s.clients, s.monitor)
  }

  lemma StepKeepsMonitored(s: State, e: Event)
    requires Monitored(s)
    ensures Monitored(Step(s, e))
  {
    hide Without, PassToken, OneActive;
    if Enabled(s, e) && !e.Accepted? {
      var fd := s.clients[ActiveIndex(s.clients)].fd;
      PassKeepsRecorded(s.clients, fd, s.monitor);
      RemovalKeepsRecorded(PassToken(s.clients, fd), fd, s.monitor);
      RemovalKeepsRecorded(s.clients, fd, s.monitor);
    }
  }

  /** Accepting, answering and timing out keep exactly one client active; an error does so exactly when
      the failing client was alone, and otherwise stalls the server. */
  lemma StepHealth(s: State, e: Event)
    requires Healthy(s) && Enabled(s, e)
    ensures !e.Failed? ==> Healthy(Step(s, e))
    ensures e.Failed? ==> (Healthy(Step(s, e)) <==> |s.clients| == 1)
    ensures e.Failed? && |s.clients| != 1 ==> Stalled(Step(s, e)) && DistinctFds(Step(s, e).clients)
  {
    match e
    case Accepted(_, _) => AcceptKeepsHealthy(s, e);
    case Heard(_) =>
    case Responded => PassMovesToNext(s.clients, ActiveIndex(s.clients));
    case FoundIdle(_, _) => IdleKeepsHealthy(s, e);
    case Failed =>
      if |s.clients| != 1 {
        RemovalLosesToken(s.clients, ActiveIndex(s.clients));
        NoneIsNotOne(Step(s, e).clients);
      }
  }

  /** A stalled server stays stalled: nobody is served, and newcomers are not activated either. */
  lemma StalledForGood(s: State, e: Event)
    requires Stalled(s) && DistinctFds(s.clients) && Enabled(s, e)
    ensures e.Accepted? && Stalled(Step(s, e)) && DistinctFds(Step(s, e).clients)
  {
    NoneIsNotOne(s.clients);
  }

  /** A client that has been heard from is not timed out before the time limit has passed: the token moves on
      and everyone stays. */
  lemma HeardClientStays(s: State, now: int, later: int, timeOut: int)
    requires Enabled(s, Heard(now)) && later - now < timeOut
    ensures var heard := Step(s, Heard(now));
      Enabled(heard, FoundIdle(later, timeOut))
      && Step(heard, FoundIdle(later, timeOut)).clients == PassToken(s.clients, s.clients[ActiveIndex(s.clients)].fd)
  {
    hide PassToken, Without, OneActive;
  }

  ghost function Run(events: seq<Event>): State
    decreases |events|
  {
    if events == [] then State([], map[]) else Step(Run(events[..|events| - 1]), events[|events| - 1])
  }

  ghost predicate Possible(events: seq<Event>)
    decreases |events|
  {
    events == [] ||
    (Possible(events[..|events| - 1]) && Enabled(Run(events[..|events| - 1]), events[|events| - 1]))
  }

  /** In every run at most one client is active; and while no client has failed, exactly one is, if anyone is connected. */
  lemma {:induction false} AtMostOneInEveryRun(events: seq<Event>)
    requires Possible(events)
    ensures DistinctFds(Run(events).clients) && AtMostOneActive(Run(events).clients)
    ensures Healthy(Run(events)) || Stalled(Run(events))
    ensures (forall e :: e in events ==> !e.Failed?) ==> Healthy(Run(events))
    ensures Monitored(Run(events))
    decreases |events|
  {
    hide Step, Enabled, DistinctFds;
    if events == [] {
      assert DistinctFds([]) by { NoClients(); }
    } else {
      var before, e := Run(events[..|events| - 1]), events[|events| - 1];
      AtMostOneInEveryRun(events[..|events| - 1]);
      StepKeepsMonitored(before, e);
      if Healthy(before) {
        StepHealth(before, e);
      } else {
        StalledForGood(before, e);
      }
    }
  }

  lemma RunStep(events: seq<Event>, e: Event)
    ensures Run(events + [e]) == Step(Run(events), e)
    ensures Possible(events + [e]) <==> Possible(events) && Enabled(Run(events), e)
  {
    assert (events + [e])[..|events|] == events;
  }

  /** Once an error has met a server with other clients, everything that can ever happen is that more clients
      connect, and none of them is ever served. */
  lemma {:induction false} StalledEverAfter(events: seq<Event>, later: seq<Event>)
    requires Possible(events + [Failed] + later) && |Run(events).clients| != 1
    ensures forall e :: e in later ==> e.Accepted?
    ensures Stalled(Run(events + [Failed] + later)) && DistinctFds(Run(events + [Failed] + later).clients)
    decreases |later|
  {
    hide Step, Enabled, DistinctFds, Stalled;
    if later == [] {
      assert events + [Failed] + [] == events + [Failed];
      RunStep(events, Failed);
      AtMostOneInEveryRun(events);
      if Healthy(Run(events)) {
        StepHealth(Run(events), Failed);
      } else {
        StalledForGood(Run(events), Failed);
      }
    } else {
      var init, last := later[..|later| - 1], later[|later| - 1];
      assert init + [last] == later;
      assert events + [Failed] + later == (events + [Failed] + init) + [last];
      RunStep(events + [Failed] + init, last);
      StalledEverAfter(events, init);
      StalledForGood(Run(events + [Failed] + init), last);
    }
  }

  /** Every error of the run met a server with a single client. */
  ghost predicate FailedAlone(events: seq<Event>) {
    forall k :: 0 <= k < |events| && events[k].Failed? ==> |Run(events[..k]).clients| == 1
  }

  lemma FailedAloneStep(events: seq<Event>, e: Event)
    ensures FailedAlone(events + [e]) <==> FailedAlone(events) && (e.Failed? ==> |Run(events).clients| == 1)
  {
    hide Run;
    var all := events + [e];
    assert forall k :: 0 <= k <= |events| ==> all[..k] == events[..k];
    assert events[..|events|] == events && all[|events|] == e;
  }

  /** An idle client is removed exactly when its time is recorded and the time limit has passed since. */
  lemma IdleRemovedExactlyWhenOld(s: State, now: int, timeOut: int, i: int)
    requires DistinctFds(s.clients) && ActiveAt(s.clients, i) && s.clients[i].fd in s.monitor
    ensures var recorded, after := s.monitor[s.clients[i].fd], Step(s, FoundIdle(now, timeOut)).clients;
      |after| == if recorded != 0 && now - recorded >= timeOut then |s.clients| - 1 else |s.clients|
  {
    hide Without, PassToken, DistinctFds, Follows, Restarts;
    ActiveIndexIs(s.clients, i);
    PassMovesToNext(s.clients, i);
    WithoutAt(PassToken(s.clients, s.clients[i].fd), i);
  }

  // ---------------------------------------------------------------- the token in a run without arrivals and departures

  /** The state after these events, from any state. */
  ghost function RunFrom(s: State, events: seq<Event>): State
    decreases |events|
  {
    if events == [] then s else Step(RunFrom(s, events[..|events| - 1]), events[|events| - 1])
  }

  /** Nobody connects and nobody fails, and the active client is always one to serve. */
  ghost predicate Undisturbed(s: State, events: seq<Event>)
    decreases |events|
  {
    events == [] ||
    (var init, last := events[..|events| - 1], events[|events| - 1];
     Undisturbed(s, init) && (last.Heard? || last.Responded? || last.FoundIdle?) && Enabled(RunFrom(s, init), last))
  }

  /** How many of the events end the active client's turn: a complete response, or a pass with nothing to do. */
  function Turns(events: seq<Event>): nat {
    if events == [] then 0
    else
      var last := events[|events| - 1];
      Turns(events[..|events| - 1]) + (if last.Responded? || last.FoundIdle? then 1 else 0)
  }

  predicate SameFds(clients: seq<Client>, after: seq<Client>) {
    |clients| == |after| && forall j :: 0 <= j < |clients| ==> clients[j].fd == after[j].fd
  }

  lemma WithoutIsShorter(clients: seq<Client>, i: int)
    requires DistinctFds(clients) && 0 <= i < |clients|
    ensures |Without(clients, clients[i].fd)| == |clients| - 1
  {
    hide Without, DistinctFds;
    WithoutAt(clients, i);
  }

  lemma ActiveIndexIs(clients: seq<Client>, i: int)
    requires ActiveAt(clients, i)
    ensures OneActive(clients) && ActiveIndex(clients) == i
  {
    assert clients[ActiveIndex(clients)].active;
  }

  /** One event that removes nobody: the token stays, or goes to the next position. */
  lemma TokenStep(s: State, e: Event, i: int)
    requires DistinctFds(s.clients) && ActiveAt(s.clients, i) && Enabled(s, e)
    requires e.Heard? || e.Responded? || e.FoundIdle?
    ensures |Step(s, e).clients| <= |s.clients|
    ensures |Step(s, e).clients| == |s.clients| ==>
      && DistinctFds(Step(s, e).clients) && SameFds(s.clients, Step(s, e).clients)
      && ActiveAt(Step(s, e).clients, if e.Heard? then i else Next(i, |s.clients|))
  {
    hide Without, PassToken, DistinctFds, Follows, Restarts;
    ActiveIndexIs(s.clients, i);
    PassMovesToNext(s.clients, i);
    PassSameFds(s.clients, s.clients[i].fd);
    WithoutIsShorter(PassToken(s.clients, s.clients[i].fd), i);
  }

  lemma PassSameFds(clients: seq<Client>, fd: int)
    ensures SameFds(clients, PassToken(clients, fd))
  {
  }

  lemma StepAddsNobody(s: State, e: Event)
    requires !e.Accepted?
    ensures |Step(s, e).clients| <= |s.clients|
  {
    hide PassToken, OneActive;
    if OneActive(s.clients) {
      var fd := s.clients[ActiveIndex(s.clients)].fd;
      WithoutAddsNobody(s.clients, fd);
      WithoutAddsNobody(PassToken(s.clients, fd), fd);
    }
  }

  lemma {:induction false} WithoutAddsNobody(clients: seq<Client>, fd: int)
    ensures |Without(clients, fd)| <= |clients|
  {
    if clients == [] {
    } else {
      WithoutAddsNobody(clients[1..], fd);
    }
  }

  lemma NextOfMod(x: nat, n: int)
    requires n > 0
    ensures Next(x % n, n) == (x + 1) % n
  {
    var q := x / n;
    if x % n + 1 == n {
      ModIs(x + 1, q + 1, 0, n);
    } else {
      ModIs(x + 1, q, x % n + 1, n);
    }
  }

  /** Over any events that remove nobody, the active position moves on by the number of completed responses and
      idle passes, modulo the number of clients. */
  lemma {:induction false} TokenMovesAround(s: State, events: seq<Event>, i: int)
    requires DistinctFds(s.clients) && ActiveAt(s.clients, i) && Undisturbed(s, events)
    requires |RunFrom(s, events).clients| == |s.clients|
    ensures var after := RunFrom(s, events).clients;
      DistinctFds(after) && SameFds(s.clients, after) && ActiveAt(after, (i + Turns(events)) % |s.clients|)
    decreases |events|
  {
    hide Step, Enabled, DistinctFds, ActiveAt;
    TokenInRange(s.clients, i);
    if events == [] {
      ModIs(i, 0, i, |s.clients|);
    } else {
      var init, last := events[..|events| - 1], events[|events| - 1];
      var before := RunFrom(s, init);
      StepAddsNobody(before, last);
      NoneAdded(s, init);
      TokenMovesAround(s, init, i);
      TokenStep(before, last, (i + Turns(init)) % |s.clients|);
      NextOfMod(i + Turns(init), |s.clients|);
    }
  }

  lemma TokenInRange(clients: seq<Client>, i: int)
    requires ActiveAt(clients, i)
    ensures 0 <= i < |clients|
  {
  }

  lemma {:induction false} NoneAdded(s: State, events: seq<Event>)
    requires Undisturbed(s, events)
    ensures |RunFrom(s, events).clients| <= |s.clients|
    decreases |events|
  {
    hide Step, Enabled;
    if events == [] {
    } else {
      NoneAdded(s, events[..|events| - 1]);
      StepAddsNobody(RunFrom(s, events[..|events| - 1]), events[|events| - 1]);
    }
  }

  lemma {:induction false} PrefixUndisturbed(s: State, events: seq<Event>, m: nat)
    requires Undisturbed(s, events) && m <= |events|
    ensures Undisturbed(s, events[..m]) && |RunFrom(s, events).clients| <= |RunFrom(s, events[..m]).clients|
    decreases |events|
  {
    hide Step, Enabled;
    if m == |events| {
      assert events[..m] == events;
    } else {
      var init := events[..|events| - 1];
      assert init[..m] == events[..m];
      PrefixUndisturbed(s, init, m);
      StepAddsNobody(RunFrom(s, init), events[|events| - 1]);
    }
  }

  lemma {:induction false} PrefixWithTurns(events: seq<Event>, d: nat) returns (m: nat)
    requires d <= Turns(events)
    ensures m <= |events| && Turns(events[..m]) == d
  {
    if d == Turns(events) {
      m := |events|;
      assert events[..m] == events;
    } else {
      var init := events[..|events| - 1];
      m := PrefixWithTurns(init, d);
      assert init[..m] == events[..m];
    }
  }

  /** Within one response or idle pass fewer than there are clients, every client has been active. */
  lemma EveryoneIsServed(s: State, events: seq<Event>, i: int, j: int) returns (m: nat)
    requires DistinctFds(s.clients) && ActiveAt(s.clients, i) && 0 <= j < |s.clients| && Undisturbed(s, events)
    requires |RunFrom(s, events).clients| == |s.clients| && Turns(events) >= |s.clients| - 1
    ensures m <= |events| && ActiveAt(RunFrom(s, events[..m]).clients, j)
  {
    hide RunFrom, DistinctFds, Undisturbed;
    var d := if i <= j then j - i else j - i + |s.clients|;
    m := PrefixWithTurns(events, d);
    PrefixUndisturbed(s, events, m);
    NoneAdded(s, events[..m]);
    TokenMovesAround(s, events[..m], i);
    ModIs(i + d, if i <= j then 0 else 1, j, |s.clients|);
  }

  /** Such events may follow any run of the server. */
  lemma {:induction false} RunContinues(before: seq<Event>, events: seq<Event>)
    ensures RunFrom(Run(before), events) == Run(before + events)
    decreases |events|
  {
    hide Step;
    if events == [] {
      assert before + [] == before;
    } else {
      RunContinues(before, events[..|events| - 1]);
      assert (before + events)[..|before + events| - 1] == before + events[..|events| - 1];
    }
  }

  /** After any run the token is where it should be if and only if no error met a server with other clients. */
  lemma {:induction false} HealthyExactlyWhenFailedAlone(events: seq<Event>)
    requires Possible(events)
    ensures Healthy(Run(events)) <==> FailedAlone(events)
    decreases |events|
  {
    hide Step, Enabled, DistinctFds, Healthy, FailedAlone, Stalled;
    if events == [] {
      StartIsHealthy();
    } else {
      var init, last := events[..|events| - 1], events[|events| - 1];
      assert init + [last] == events;
      HealthyExactlyWhenFailedAlone(init);
      RunStep(init, last);
      FailedAloneStep(init, last);
      AtMostOneInEveryRun(init);
      if Healthy(Run(init)) {
        StepHealth(Run(init), last);
      } else {
        StalledForGood(Run(init), last);
        StalledIsNotHealthy(Run(events));
      }
    }
  }

  lemma StartIsHealthy()
    ensures Healthy(Run([])) && FailedAlone([])
  {
  }

  lemma StalledIsNotHealthy(s: State)
    requires Stalled(s)
    ensures !Healthy(s)
  {
    NoneIsNotOne(s.clients);
  }

  lemma NoClients()
    ensures DistinctFds([])
  {
  }
}
