/** The heap list of clients in mini_serv_original.c: g_clients with g_id, and the functions that walk it. */
module ClientList {
  import opened ChatProtocol

  class Client {
    var fd: int
    var id: int
    var next: Client?

    constructor (fd: int, id: int)
      ensures this.fd == fd && this.id == id && next == null
    {
      this.fd, this.id, next := fd, id, null;
    }
  }

  /** The list contents that a sequence of nodes stands for. */
  ghost function Contents(nodes: seq<Client>): (members: seq<Member>)
    reads nodes
    ensures |members| == |nodes|
    ensures forall k :: 0 <= k < |nodes| ==> members[k] == Member(nodes[k].fd, nodes[k].id)
  {
    if nodes == [] then [] else [Member(nodes[0].fd, nodes[0].id)] + Contents(nodes[1..])
  }

  /** The node at a position; past the end, the null that ends the list. */
  ghost function NodeAt(nodes: seq<Client>, k: nat): Client? {
    if k < |nodes| then nodes[k] else null
  }

  ghost predicate Chain(nodes: seq<Client>)
    reads nodes
  {
    forall k {:trigger nodes[k].next} :: 0 <= k < |nodes| ==> nodes[k].next == NodeAt(nodes, k + 1)
  }

  /** A chain that ends cannot visit a node twice. */
  lemma {:induction false} NodesDiffer(nodes: seq<Client>, i: nat, j: nat)
    requires Chain(nodes) && i < j < |nodes|
    ensures nodes[i] != nodes[j]
    decreases |nodes| - j
  {
    assert nodes[i].next == nodes[i + 1];
    assert nodes[j].next == NodeAt(nodes, j + 1);
    if j + 1 == |nodes| {
    } else {
      NodesDiffer(nodes, i + 1, j + 1);
    }
  }

  lemma OthersDiffer(nodes: seq<Client>, k: nat)
    requires Chain(nodes) && k < |nodes|
    ensures forall i :: 0 <= i < |nodes| && i != k ==> nodes[i] != nodes[k]
  {
    forall i | 0 <= i < |nodes| && i != k
      ensures nodes[i] != nodes[k]
    {
      if i < k {
        NodesDiffer(nodes, i, k);
      } else {
        NodesDiffer(nodes, k, i);
      }
    }
  }

  ghost function Unlinked(nodes: seq<Client>, k: nat): (rest: seq<Client>)
    requires k < |nodes|
    ensures |rest| == |nodes| - 1
    ensures forall i :: 0 <= i < k ==> rest[i] == nodes[i]
    ensures forall i :: k <= i < |rest| ==> rest[i] == nodes[i + 1]
    ensures forall n :: n in rest ==> n in nodes
  {
    nodes[..k] + nodes[k + 1..]
  }

  lemma UnlinkedContents(rest: seq<Client>, members: seq<Member>, k: nat)
    requires k < |members| && |rest| == |members| - 1
    requires forall i :: 0 <= i < k ==> Member(rest[i].fd, rest[i].id) == members[i]
    requires forall i :: k <= i < |rest| ==> Member(rest[i].fd, rest[i].id) == members[i + 1]
    ensures Contents(rest) == members[..k] + members[k + 1..]
  {
  }

  class ClientList {
    var clients: Client?
    var nextId: int
    ghost var nodes: seq<Client>

    /** The nodes are those reached from the head. */
    ghost predicate Valid()
      reads this, nodes
    {
      clients == NodeAt(nodes, 0) && Chain(nodes)
    }

    ghost function Members(): seq<Member>
      reads this, nodes
    {
      Contents(nodes)
    }

    constructor ()
      ensures Valid() && Members() == [] && nextId == 0 && nodes == []
    {
      clients, nextId, nodes := null, 0, [];
    }

    method GetId(fd: int) returns (id: int)
      requires Valid()
      ensures id == IdOf(Members(), fd)
    {
      var temp := clients;
      ghost var k, members := 0, Members();
      assert members[0..] == members;
      while temp != null
        invariant 0 <= k <= |nodes| && temp == NodeAt(nodes, k)
        invariant IdOf(members, fd) == IdOf(members[k..], fd)
        decreases |nodes| - k
      {
        assert members[k..][1..] == members[k + 1..];
        if temp.fd == fd {
          return temp.id;
        }
        temp := temp.next;
        k := k + 1;
      }
      return -1;
    }

    method GetMaxFd(sockFd: int) returns (max: int)
      requires Valid()
      ensures max == MaxFd(Members(), sockFd)
    {
      max := sockFd;
      var temp := clients;
      ghost var k, members := 0, Members();
      while temp != null
        invariant 0 <= k <= |nodes| && temp == NodeAt(nodes, k)
        invariant max == MaxFd(members[..k], sockFd)
        decreases |nodes| - k
      {
        assert members[..k + 1][..k] == members[..k];
        if temp.fd > max {
          max := temp.fd;
        }
        temp := temp.next;
        k := k + 1;
      }
      assert members[..k] == members;
    }

    method AddClientToList(fd: int) returns (id: int)
      requires Valid()
      modifies this, nodes
      ensures Valid() && Members() == old(Members()) + [Member(fd, old(nextId))]
      ensures id == old(nextId) && nextId == old(nextId) + 1
      ensures forall n :: n in nodes ==> n in old(nodes) || fresh(n)
    {
      var temp := clients;
      var added := new Client(fd, nextId);
      nextId := nextId + 1;
      if clients == null {
        clients := added;
      } else {
        ghost var k := 0;
        while temp.next != null
          invariant 0 <= k < |nodes| && temp == nodes[k]
          decreases |nodes| - k
        {
          temp := temp.next;
          k := k + 1;
        }
        OthersDiffer(nodes, k);
        temp.next := added;
      }
      nodes := nodes + [added];
      return added.id;
    }

    /** The walk of rm_client to the node before the first client with this descriptor. */
    method NodeBefore(fd: int) returns (temp: Client, ghost k: nat)
      requires Valid() && nodes != [] && nodes[0].fd != fd && fd in Fds(Members())
      ensures k + 1 < |nodes| && temp == nodes[k] && nodes[k + 1].fd == fd
      ensures forall i :: 0 <= i <= k ==> nodes[i].fd != fd
    {
      ghost var at := FdAt(Members(), fd);
      assert nodes[at].fd == fd;
      temp := clients;
      k := 0;
      while temp.next != null && temp.next.fd != fd
        invariant 0 <= k < at && temp == nodes[k]
        invariant forall i :: 0 <= i <= k ==> nodes[i].fd != fd
        decreases |nodes| - k
      {
        temp := temp.next;
        k := k + 1;
      }
    }

    /** The two ways of rm_client to unlink the node at position k: from the head, or from the node before it. */
    method Unlink(temp: Client?, ghost k: nat)
      requires Valid() && k < |nodes| && temp == (if k == 0 then null else nodes[k - 1])
      modifies this, nodes
      ensures Valid() && nodes == Unlinked(old(nodes), k) && nextId == old(nextId)
      ensures Members() == old(Members())[..k] + old(Members())[k + 1..]
    {
      hide Contents;
      ghost var members := Members();
      if temp == null {
        clients := clients.next;
      } else {
        OthersDiffer(nodes, k - 1);
        temp.next := temp.next.next;
      }
      nodes := Unlinked(nodes, k);
      UnlinkedContents(nodes, members, k);
    }

    /** Unlinks the first client with this descriptor, which must be there: the walk dereferences it. */
    method RmClient(fd: int) returns (id: int)
      requires Valid() && fd in Fds(Members())
      modifies this, nodes
      ensures Valid() && Members() == Without(old(Members()), fd) && nextId == old(nextId)
      ensures id == IdOf(old(Members()), fd)
      ensures forall n :: n in nodes ==> n in old(nodes)
    {
      hide IdOf, Without, Fds, Contents, Chain;
      id := GetId(fd);
      HasMember(Members(), fd);
      if clients != null && clients.fd == fd {
        FirstRemoved(Members(), fd, 0);
        Unlink(null, 0);
      } else {
        var temp, before := NodeBefore(fd);
        FirstRemoved(Members(), fd, before + 1);
        Unlink(temp, before + 1);
      }
    }
  }

  lemma HasMember(members: seq<Member>, fd: int)
    requires fd in Fds(members)
    ensures members != []
  {
  }

  lemma {:induction false} FirstRemoved(members: seq<Member>, fd: int, k: nat)
    requires k < |members| && members[k].fd == fd && forall i :: 0 <= i < k ==> members[i].fd != fd
    ensures Without(members, fd) == members[..k] + members[k + 1..]
  {
    if k == 0 {
    } else {
      FirstRemoved(members[1..], fd, k - 1);
    }
  }
}
