/** The broadcast hub of ui/hub.go and the outbound side of a subscriber
    connection from ui/web.go. The hub's `run` loop takes one request at a time;
    a broadcast offers the message to every member without blocking and evicts
    the members whose buffers are full. Goroutines, channels between them and the
    websockets are not modelled: a request is a value given to the loop. */
module Hub {
  import opened Options

  /** Capacity of every subscriber's outbound buffer (ui/web.go:173). */
  const SendBufferSize: nat := 256

  /** A subscriber connection, seen through its buffered `send` channel: the
      messages not yet taken by the writer, oldest first, and whether the channel
      has been closed. */
  class Connection {
    const capacity: nat
    var queue: seq<string>
    var closed: bool

    ghost predicate Valid()
      reads this
    {
      |queue| <= capacity
    }

    /** The connection statusHandler creates: an empty, open buffer of 256 slots. */
    constructor ()
      ensures Valid()
      ensures capacity == SendBufferSize && queue == [] && !closed
    {
      capacity := SendBufferSize;
      queue := [];
      closed := false;
    }

    /** The non-blocking send `select { case c.send <- m: ... default: ... }`:
        the message is queued at the back when there is room, and nothing changes
        when the buffer is full. Sending on a closed channel would panic, so the
        buffer must be open. */
    method TrySend(m: string) returns (ok: bool)
      requires Valid() && !closed
      modifies this`queue
      ensures Valid()
      ensures ok <==> |old(queue)| < capacity
      ensures queue == if ok then old(queue) + [m] else old(queue)
    {
      ok := |queue| < capacity;
      if ok {
        queue := queue + [m];
      }
    }

    /** close(c.send): closing an already closed channel would panic, so the buffer
        must be open; the queued messages stay for the writer to drain. */
    method Close()
      requires !closed
      modifies this`closed
      ensures closed
    {
      closed := true;
    }

    /** One receive of the writer's `range c.send`: the oldest queued message, or
        None once the buffer is closed and drained (the loop ends). Waiting on an
        empty open buffer is not modelled. */
    method Receive() returns (m: Option<string>)
      requires Valid()
      requires |queue| > 0 || closed
      modifies this`queue
      ensures Valid()
      ensures old(queue) != [] ==> m == Some(old(queue)[0]) && queue == old(queue)[1..]
      ensures old(queue) == [] ==> m == None && queue == []
    {
      if queue != [] {
        m := Some(queue[0]);
        queue := queue[1..];
      } else {
        m := None;
      }
    }
  }

  /** A value received by one turn of the hub's `select` (ui/hub.go:26-39). */
  datatype Request =
    | RegisterRequest(conn: Connection)
    | UnregisterRequest(conn: Connection)
    | BroadcastRequest(msg: string)

  /** The connections registered by a sequence of requests. */
  function RegisteredIn(requests: seq<Request>): set<Connection>
  {
    set i | 0 <= i < |requests| && requests[i].RegisterRequest? :: requests[i].conn
  }

  predicate OnlyBroadcasts(requests: seq<Request>)
  {
    forall i :: 0 <= i < |requests| ==> requests[i].BroadcastRequest?
  }

  /** The messages of a sequence of broadcasts. */
  function Messages(requests: seq<Request>): (r: seq<string>)
    requires OnlyBroadcasts(requests)
    ensures |r| == |requests|
    ensures forall i :: 0 <= i < |r| ==> r[i] == requests[i].msg
  {
    seq(|requests|, i requires 0 <= i < |requests| => requests[i].msg)
  }

  /** One connection as the hub's run loop affects it: its queued messages,
      whether its buffer is closed, and whether it is still a member. */
  datatype Outcome = Outcome(queue: seq<string>, closed: bool, member: bool)

  /** One broadcast of `m` (ui/hub.go:31-39) as seen by one connection of the given
      capacity: a non-member is not touched; a member with room queues `m`; a full
      member has its buffer closed and is removed. */
  function BroadcastOutcome(o: Outcome, m: string, capacity: nat): Outcome
  {
    if !o.member then o
    else if |o.queue| < capacity then Outcome(o.queue + [m], false, true)
    else Outcome(o.queue, true, false)
  }

  /** The broadcasts `msgs` one after another, from the outcome `o`. */
  function Replay(o: Outcome, msgs: seq<string>, capacity: nat): Outcome
    decreases |msgs|
  {
    if msgs == [] then o
    else BroadcastOutcome(Replay(o, msgs[..|msgs| - 1], capacity), msgs[|msgs| - 1], capacity)
  }

  /** The closed form of a run of broadcasts on an undrained member that starts
      with `q` queued: with `room` free slots it receives the first `room` messages
      in order, staying a member if they all fit and otherwise ending evicted with
      its buffer closed. */
  function Delivered(q: seq<string>, capacity: nat, msgs: seq<string>): Outcome
    requires |q| <= capacity
  {
    var room := capacity - |q|;
    if |msgs| <= room then Outcome(q + msgs, false, true)
    else Outcome(q + msgs[..room], true, false)
  }

  /** The closed form advances by exactly one broadcast. */
  lemma {:induction false} DeliveredStep(q: seq<string>, capacity: nat, msgs: seq<string>, m: string)
    requires |q| <= capacity
    ensures Delivered(q, capacity, msgs + [m]) == BroadcastOutcome(Delivered(q, capacity, msgs), m, capacity)
  {
    var room := capacity - |q|;
    if |msgs| < room {
      assert q + (msgs + [m]) == (q + msgs) + [m];
    } else {
      assert (msgs + [m])[..room] == msgs[..room];
      assert |msgs| == room ==> msgs[..room] == msgs;
    }
  }

  /** Replaying the broadcasts one at a time from an open member gives the closed form. */
  lemma {:induction false} ReplayIsDelivered(q: seq<string>, capacity: nat, msgs: seq<string>)
    requires |q| <= capacity
    ensures Replay(Outcome(q, false, true), msgs, capacity) == Delivered(q, capacity, msgs)
    decreases |msgs|
  {
    if msgs == [] {
      assert q + msgs == q;
    } else {
      var n := |msgs|;
      ReplayIsDelivered(q, capacity, msgs[..n - 1]);
      DeliveredStep(q, capacity, msgs[..n - 1], msgs[n - 1]);
      assert msgs[..n - 1] + [msgs[n - 1]] == msgs;
    }
  }

  lemma {:induction false} MessagesSnoc(requests: seq<Request>, i: nat)
    requires OnlyBroadcasts(requests) && i < |requests|
    ensures OnlyBroadcasts(requests[..i]) && OnlyBroadcasts(requests[..i + 1])
    ensures Messages(requests[..i + 1]) == Messages(requests[..i]) + [requests[i].msg]
  {
    assert OnlyBroadcasts(requests[..i + 1]);
    assert OnlyBroadcasts(requests[..i]);
  }

  /** What statusHandler guarantees of the registrations the hub receives: each
      registers a new, open, empty-enough connection with a 256-slot buffer, and no
      connection is registered twice. */
  ghost predicate FreshRegistrations(requests: seq<Request>, from: nat, members: set<Connection>)
    reads set i | from <= i < |requests| && requests[i].RegisterRequest? :: requests[i].conn
  {
    (forall i :: from <= i < |requests| && requests[i].RegisterRequest? ==>
      var c := requests[i].conn;
      c !in members && !c.closed && c.Valid() && c.capacity == SendBufferSize) &&
    (forall i, j :: from <= i < j < |requests| && requests[i].RegisterRequest? && requests[j].RegisterRequest? ==>
      requests[i].conn != requests[j].conn)
  }

  /** The hub: the set of registered connections (the map of ui/hub.go:5, whose
      values are always true). */
  class MessageHub {
    var connections: set<Connection>

    /** No member has a closed buffer, and no member's queue exceeds 256 messages. */
    ghost predicate Valid()
      reads this, connections
    {
      forall c :: c in connections ==> !c.closed && c.Valid() && c.capacity == SendBufferSize
    }

    /** The hub of ui/hub.go:17-22, with no connections yet. */
    constructor ()
      ensures Valid() && connections == {}
    {
      connections := {};
    }

    /** `h.connections[c] = true` (ui/hub.go:27-28). */
    method Register(c: Connection)
      requires Valid()
      requires !c.closed && c.Valid() && c.capacity == SendBufferSize
      modifies this
      ensures Valid()
      ensures connections == old(connections) + {c}
    {
      connections := connections + {c};
    }

    /** `delete(h.connections, c)` (ui/hub.go:29-30): removing a non-member does nothing. */
    method Unregister(c: Connection)
      requires Valid()
      modifies this
      ensures Valid()
      ensures connections == old(connections) - {c}
    {
      connections := connections - {c};
    }

    /** ui/hub.go:31-39: every member with room gets `m` at the back of its queue and
        stays; every member whose buffer is full is removed and its buffer closed,
        its queued messages left as they were. No other connection is touched. */
    method Broadcast(m: string)
      requires Valid()
      modifies this, connections
      ensures Valid()
      ensures connections == set c | c in old(connections) && |old(c.queue)| < c.capacity
      ensures forall c :: c in old(connections) && |old(c.queue)| < c.capacity ==>
        c.queue == old(c.queue) + [m] && !c.closed
      ensures forall c :: c in old(connections) && |old(c.queue)| >= c.capacity ==>
        c.queue == old(c.queue) && c.closed
    {
      var pending := connections;
      while pending != {}
        invariant pending <= old(connections)
        invariant connections == pending + set c | c in old(connections) - pending && |old(c.queue)| < c.capacity
        invariant forall c :: c in pending ==> c.queue == old(c.queue) && c.closed == old(c.closed)
        invariant forall c :: c in old(connections) ==> !old(c.closed) && |old(c.queue)| <= c.capacity
        invariant forall c :: c in old(connections) - pending && |old(c.queue)| < c.capacity ==>
          c.queue == old(c.queue) + [m] && !c.closed
        invariant forall c :: c in old(connections) - pending && |old(c.queue)| >= c.capacity ==>
          c.queue == old(c.queue) && c.closed
        invariant forall c :: c in old(connections) ==> c.capacity == SendBufferSize
        decreases pending
      {
        var c :| c in pending;
        pending := pending - {c};
        var ok := c.TrySend(m);
        if !ok {
          connections := connections - {c};
          c.Close();
        }
      }
    }

    /** One turn of the `run` loop (ui/hub.go:26-40). */
    method Step(r: Request)
      requires Valid()
      requires r.RegisterRequest? ==> !r.conn.closed && r.conn.Valid() && r.conn.capacity == SendBufferSize
      modifies this, connections
      ensures Valid()
      ensures r.RegisterRequest? ==> connections == old(connections) + {r.conn}
      ensures r.UnregisterRequest? ==> connections == old(connections) - {r.conn}
      ensures !r.BroadcastRequest? ==> forall c :: c in old(connections) ==>
        c.queue == old(c.queue) && c.closed == old(c.closed)
      ensures r.BroadcastRequest? ==>
        connections == set c | c in old(connections) && |old(c.queue)| < c.capacity
      ensures r.BroadcastRequest? ==> forall c :: c in old(connections) && |old(c.queue)| < c.capacity ==>
        c.queue == old(c.queue) + [r.msg] && !c.closed
      ensures r.BroadcastRequest? ==> forall c :: c in old(connections) && |old(c.queue)| >= c.capacity ==>
        c.queue == old(c.queue) && c.closed
    {
      match r
      case RegisterRequest(c) => Register(c);
      case UnregisterRequest(c) => Unregister(c);
      case BroadcastRequest(m) => Broadcast(m);
    }

    /** The `run` loop over a finite sequence of requests. Membership only ever comes
        from registration and the invariant holds throughout. When the requests are
        all broadcasts and nobody drains, every original member ends as `Delivered`
        says: it receives as many of the messages, in order, as it has room for, and
        the first broadcast that does not fit evicts it and closes its buffer. */
    method Run(requests: seq<Request>)
      requires Valid()
      requires FreshRegistrations(requests, 0, connections)
      modifies this, connections, RegisteredIn(requests)
      ensures Valid()
      ensures connections <= old(connections) + RegisteredIn(requests)
      ensures forall c :: c in old(connections) ==> |old(c.queue)| <= c.capacity
      ensures OnlyBroadcasts(requests) ==> forall c :: c in old(connections) ==>
        Outcome(c.queue, c.closed, c in connections) == Delivered(old(c.queue), c.capacity, Messages(requests))
    {
      var i := 0;
      assert requests[..|requests|] == requests;
      while i < |requests|
        invariant 0 <= i <= |requests| && Valid()
        invariant connections <= old(connections) + RegisteredIn(requests[..i])
        invariant FreshRegistrations(requests, i, connections)
        invariant forall c :: c in old(connections) ==> |old(c.queue)| <= c.capacity
        invariant OnlyBroadcasts(requests) ==> forall c :: c in old(connections) ==>
          Outcome(c.queue, c.closed, c in connections) == Delivered(old(c.queue), c.capacity, Messages(requests[..i]))
      {
        assert requests[..i + 1] == requests[..i] + [requests[i]];
        label before:
        Step(requests[i]);
        if OnlyBroadcasts(requests) {
          MessagesSnoc(requests, i);
          var m := requests[i].msg;
          forall c | c in old(connections)
            ensures Outcome(c.queue, c.closed, c in connections)
              == BroadcastOutcome(old@before(Outcome(c.queue, c.closed, c in connections)), m, c.capacity)
          {
          }
          forall c | c in old(connections)
            ensures Delivered(old(c.queue), c.capacity, Messages(requests[..i + 1]))
              == BroadcastOutcome(Delivered(old(c.queue), c.capacity, Messages(requests[..i])), m, c.capacity)
          {
            DeliveredStep(old(c.queue), c.capacity, Messages(requests[..i]), m);
          }
        }
        i := i + 1;
      }
    }
  }
}
