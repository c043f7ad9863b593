/** The peer registry, its per-peer mailboxes, the broadcast fan-out and the
    delivery task that drains each mailbox (src/state.rs). The registry is
    treated sequentially: one send, and the eviction it may cause, is one
    atomic step. */
module Registry {
  import opened Messages

  /** Identity of a connection: the remote socket address. */
  datatype Addr = Addr(ip: seq<nat>, port: nat)

  /** Capacity of every mailbox (`mpsc::channel(128)`). */
  const Capacity: nat := 128

  /** One read from the line-framed input half of a connection: a line, a
      read error, or the end of the stream. */
  datatype ReadResult = Line(text: string) | ReadErr | End

  /** The record handed back by `add`: the user name and the input half. */
  datatype Peer = Peer(username: string, stream: seq<ReadResult>)

  /** The value of one mailbox at an instant: the queued messages, whether
      its receiving delivery task has ended (`closed`), and whether the
      registry still holds its sending half (`hasSender`). */
  datatype MailboxView = MailboxView(queue: seq<Message>, closed: bool, hasSender: bool)

  const FreshMailbox: MailboxView := MailboxView([], false, true)

  /** Never over capacity; once the receiver is gone its queue is dropped. */
  predicate WellFormed(v: MailboxView)
  {
    |v.queue| <= Capacity && (v.closed ==> v.queue == [])
  }

  /** `Sender::send`: appends when the receiver is alive, fails otherwise. */
  function Sent(v: MailboxView, m: Message): (r: (MailboxView, bool))
    ensures WellFormed(v) && (!v.closed ==> |v.queue| < Capacity) ==> WellFormed(r.0)
  {
    if v.closed then (v, false) else (v.(queue := v.queue + [m]), true)
  }

  /** The delivery task run until its queue is empty: messages are popped and
      written in order; the write of the message at index `failAt` (if there
      is one) fails, which ends the task and drops its receiver. When the
      queue runs dry with no sender left, `recv` yields nothing and the task
      ends as well. The second component is the text written to the peer. */
  function Drained(v: MailboxView, failAt: nat): (r: (MailboxView, seq<string>))
    ensures WellFormed(r.0) && r.0.queue == [] && |r.1| <= |v.queue|
    ensures v.closed ==> r.0.closed
    ensures r.0.hasSender == v.hasSender
  {
    if failAt < |v.queue| then
      (MailboxView([], true, v.hasSender), RenderAll(v.queue[..failAt]))
    else
      (MailboxView([], v.closed || !v.hasSender, v.hasSender), RenderAll(v.queue))
  }

  /** `State::broadcast` on the registry's value: every peer other than
      `exclude` is offered `m`; a peer whose send fails is removed, every
      other one has `m` at the end of its queue. */
  function Broadcasted(reg: map<Addr, MailboxView>, exclude: Addr, m: Message): (r: map<Addr, MailboxView>)
    ensures r.Keys <= reg.Keys
    ensures (forall a :: a in reg ==> WellFormed(reg[a])) && HasRoom(reg, exclude, 1) ==>
      forall a :: a in r ==> WellFormed(r[a])
  {
    map a | a in reg && (a == exclude || Sent(reg[a], m).1) ::
      if a == exclude then reg[a] else Sent(reg[a], m).0
  }

  /** `State::add` on the registry's value: a fresh mailbox under `addr`. */
  function Added(reg: map<Addr, MailboxView>, addr: Addr): (r: map<Addr, MailboxView>)
    ensures reg.Keys <= r.Keys
    ensures (forall a :: a in reg ==> WellFormed(reg[a])) ==> forall a :: a in r ==> WellFormed(r[a])
  {
    reg[addr := FreshMailbox]
  }

  /** Every open mailbox other than `exclude`'s can take `k` more messages. */
  predicate HasRoom(reg: map<Addr, MailboxView>, exclude: Addr, k: nat)
  {
    forall a :: a in reg && a != exclude && !reg[a].closed ==> |reg[a].queue| + k <= Capacity
  }

  /** Several broadcasts from the same sender, in call order. */
  function BroadcastEach(reg: map<Addr, MailboxView>, exclude: Addr, ms: seq<Message>)
    : map<Addr, MailboxView>
    decreases |ms|
  {
    if ms == [] then reg else BroadcastEach(Broadcasted(reg, exclude, ms[0]), exclude, ms[1..])
  }

  // ---------------------------------------------------------------------
  // Properties of the value-level operations

  /** A send succeeds exactly when the receiver is alive, and then appends. */
  lemma SendAppendsOrFails(v: MailboxView, m: Message)
    ensures Sent(v, m).1 <==> !v.closed
    ensures Sent(v, m).1 ==> Sent(v, m).0.queue == v.queue + [m]
    ensures Sent(v, m).0.closed == v.closed && Sent(v, m).0.hasSender == v.hasSender
    ensures !Sent(v, m).1 ==> Sent(v, m).0 == v
  {
  }

  /** The sender's own entry is neither sent to nor removed. */
  lemma BroadcastSkipsSender(reg: map<Addr, MailboxView>, exclude: Addr, m: Message)
    requires exclude in reg
    ensures exclude in Broadcasted(reg, exclude, m)
    ensures Broadcasted(reg, exclude, m)[exclude] == reg[exclude]
  {
  }

  /** Every other open peer gets `m` exactly once, after what it already had. */
  lemma BroadcastDelivers(reg: map<Addr, MailboxView>, exclude: Addr, m: Message, a: Addr)
    requires a in reg && a != exclude && !reg[a].closed
    ensures a in Broadcasted(reg, exclude, m)
    ensures Broadcasted(reg, exclude, m)[a] == reg[a].(queue := reg[a].queue + [m])
  {
  }

  /** A peer stays registered exactly when it is the sender or its mailbox is
      open: no key is added, and only the peers whose send failed are evicted. */
  lemma BroadcastEvictsExactlyFailed(reg: map<Addr, MailboxView>, exclude: Addr, m: Message, a: Addr)
    ensures a in Broadcasted(reg, exclude, m) <==> a in reg && (a == exclude || !reg[a].closed)
  {
  }

  /** `add` puts a fresh mailbox under `addr` and leaves the others alone. */
  lemma AddReplacesOnlyAddr(reg: map<Addr, MailboxView>, addr: Addr, a: Addr)
    ensures addr in Added(reg, addr) && Added(reg, addr)[addr] == MailboxView([], false, true)
    ensures Added(reg, addr).Keys == reg.Keys + {addr}
    ensures a in reg && a != addr ==> Added(reg, addr)[a] == reg[a]
  {
  }

  /** Room shrinks by one per broadcast and is not affected by `add`. */
  lemma HasRoomAfterBroadcast(reg: map<Addr, MailboxView>, exclude: Addr, m: Message, k: nat)
    requires HasRoom(reg, exclude, k + 1)
    ensures HasRoom(Broadcasted(reg, exclude, m), exclude, k)
  {
  }

  lemma HasRoomAfterAdd(reg: map<Addr, MailboxView>, addr: Addr, k: nat)
    requires HasRoom(reg, addr, k)
    ensures HasRoom(Added(reg, addr), addr, k)
  {
  }

  /** Broadcasts from one sender reach each open recipient in call order:
      its queue is extended by exactly `ms`. */
  lemma {:induction false} BroadcastEachFifo(reg: map<Addr, MailboxView>, exclude: Addr, ms: seq<Message>, a: Addr)
    requires a in reg && a != exclude && !reg[a].closed
    ensures a in BroadcastEach(reg, exclude, ms)
    ensures BroadcastEach(reg, exclude, ms)[a] == reg[a].(queue := reg[a].queue + ms)
    decreases |ms|
  {
    if ms != [] {
      var next := Broadcasted(reg, exclude, ms[0]);
      BroadcastDelivers(reg, exclude, ms[0], a);
      BroadcastEachFifo(next, exclude, ms[1..], a);
      assert reg[a].queue + [ms[0]] + ms[1..] == reg[a].queue + ms;
    }
  }

  /** An evicted (or never registered) peer is never offered anything again. */
  lemma {:induction false} BroadcastEachNeverReadds(reg: map<Addr, MailboxView>, exclude: Addr, ms: seq<Message>, a: Addr)
    requires a !in reg
    ensures a !in BroadcastEach(reg, exclude, ms)
    decreases |ms|
  {
    if ms != [] {
      BroadcastEachNeverReadds(Broadcasted(reg, exclude, ms[0]), exclude, ms[1..], a);
    }
  }

  /** The delivery task writes a prefix of the queue, in queue order, each
      message as its rendered text, stopping before the failed write. */
  lemma DrainWritesInOrder(v: MailboxView, failAt: nat)
    ensures var written := Drained(v, failAt).1;
      |written| == (if failAt < |v.queue| then failAt else |v.queue|) &&
      (forall k :: 0 <= k < |written| ==> written[k] == Render(v.queue[k])) &&
      Drained(v, failAt).0.queue == []
  {
  }

  /** After a failed write the mailbox is closed, so every later send fails,
      and the next broadcast by anyone else evicts the peer. */
  lemma FailedWriteLeadsToEviction(reg: map<Addr, MailboxView>, a: Addr, failAt: nat, exclude: Addr, m: Message)
    requires a in reg && a != exclude && failAt < |reg[a].queue|
    ensures Drained(reg[a], failAt).0.closed
    ensures !Sent(Drained(reg[a], failAt).0, m).1
    ensures a !in Broadcasted(reg[a := Drained(reg[a], failAt).0], exclude, m)
  {
  }

  /** The task stays alive (its mailbox open) after draining without error
      exactly while the registry still holds the sender. */
  lemma DrainWithoutFailure(v: MailboxView, failAt: nat, m: Message)
    requires !v.closed && |v.queue| <= failAt
    ensures Drained(v, failAt).1 == RenderAll(v.queue)
    ensures Drained(v, failAt).0.closed <==> !v.hasSender
    ensures Sent(Drained(v, failAt).0, m).1 <==> v.hasSender
  {
  }

  /** The fan-out result is determined key by key. */
  lemma BroadcastedPointwise(reg: map<Addr, MailboxView>, exclude: Addr, m: Message, r: map<Addr, MailboxView>)
    requires forall b :: b in r <==> b in reg && (b == exclude || !reg[b].closed)
    requires forall b :: b in r ==> r[b] == if b == exclude then reg[b] else Sent(reg[b], m).0
    ensures r == Broadcasted(reg, exclude, m)
  {
  }

  // ---------------------------------------------------------------------
  // The imperative state

  /** A bounded channel shared by the registry (sending half) and the peer's
      delivery task (receiving half). */
  class Mailbox {
    var queue: seq<Message>
    var closed: bool
    var hasSender: bool
    /** The address this mailbox was created for. */
    ghost const owner: Addr

    function View(): MailboxView
      reads this
    {
      MailboxView(queue, closed, hasSender)
    }

    ghost predicate Valid()
      reads this
    {
      WellFormed(View())
    }

    /** `mpsc::channel(128)`: empty, with both halves alive. */
    constructor (ghost owner: Addr)
      ensures Valid() && View() == FreshMailbox && this.owner == owner
    {
      this.owner := owner;
      queue := [];
      closed := false;
      hasSender := true;
    }

    /** `Sender::send` when the mailbox has room or is closed. */
    method Send(m: Message) returns (ok: bool)
      requires Valid()
      requires !closed ==> |queue| < Capacity
      modifies this
      ensures Valid()
      ensures (View(), ok) == Sent(old(View()), m)
    {
      ok := !closed;
      if ok {
        queue := queue + [m];
      }
    }

    /** The registry lets go of the sending half. */
    method DropSender()
      requires Valid()
      modifies this
      ensures Valid()
      ensures View() == old(View()).(hasSender := false)
    {
      hasSender := false;
    }

    /** The loop of the spawned delivery task, run until its queue is empty;
        the write of the message at index `failAt` fails. */
    method Drain(failAt: nat) returns (written: seq<string>)
      requires Valid()
      modifies this
      ensures Valid()
      ensures (View(), written) == Drained(old(View()), failAt)
    {
      ghost var q0 := queue;
      var i := 0;
      var failed := false;
      written := [];
      while queue != []
        invariant 0 <= i <= |q0| && queue == q0[i..]
        invariant i <= failAt
        invariant written == RenderAll(q0[..i])
        invariant closed == old(closed) && hasSender == old(hasSender)
        decreases |queue|
      {
        var message := queue[0];
        queue := queue[1..];
        if i == failAt {
          failed := true;
          break;
        }
        assert q0[..i + 1] == q0[..i] + [message];
        written := written + [Render(message)];
        i := i + 1;
      }
      assert !failed ==> q0[..i] == q0;
      if failed || !hasSender {
        closed := true;
        queue := [];
      }
    }
  }

  /** The process-wide registry: peer address to the sending half of its
      mailbox. */
  class State {
    var peers: map<Addr, Mailbox>

    /** Every registered mailbox is well formed, still has its sender, and
        was created for its key (so no two addresses share a mailbox). */
    ghost predicate Valid()
      reads this, peers.Values
    {
      forall a :: a in peers ==> peers[a].Valid() && peers[a].hasSender && peers[a].owner == a
    }

    ghost function Snapshot(): map<Addr, MailboxView>
      reads this, peers.Values
    {
      map a | a in peers :: peers[a].View()
    }

    /** `State::default`: no peers. */
    constructor ()
      ensures Valid() && Snapshot() == map[]
    {
      peers := map[];
    }

    /** `State::add`: registers a fresh mailbox under `addr`, replacing (and
        dropping the sender of) any previous one; its delivery task is
        `peers[addr].Drain`. Returns the user name and the input half. */
    method Add(addr: Addr, username: string, stream: seq<ReadResult>) returns (peer: Peer)
      requires Valid()
      modifies this, peers.Values
      ensures Valid()
      ensures peer.username == username && peer.stream == stream
      ensures Snapshot() == Added(old(Snapshot()), addr)
      ensures addr in peers && fresh(peers[addr])
      ensures peers == old(peers)[addr := peers[addr]]
      ensures addr in old(peers) ==>
        old(peers)[addr].View() == old(peers[addr].View()).(hasSender := false)
      ensures forall a :: a in old(peers) && a != addr ==> old(peers)[a].View() == old(peers[a].View())
    {
      ghost var s0 := Snapshot();
      if addr in peers {
        peers[addr].DropSender();
      }
      var mailbox := new Mailbox(addr);
      peers := peers[addr := mailbox];
      peer := Peer(username, stream);
      SnapshotIs(Added(s0, addr));
    }

    /** The loop state of the fan-out: `boxes` and `before` are the registry
        on entry, `pending` the keys not yet visited, `expected` the value the
        registry has now. */
    ghost predicate Fanout(boxes: map<Addr, Mailbox>, before: map<Addr, MailboxView>, addr: Addr,
                           message: Message, pending: set<Addr>, expected: map<Addr, MailboxView>)
      reads this, boxes.Values
    {
      boxes.Keys == before.Keys && pending <= peers.Keys && peers.Keys == expected.Keys &&
      (forall b :: b in peers ==> b in boxes && peers[b] == boxes[b]) &&
      (forall b :: b in boxes ==>
         boxes[b].owner == b &&
         boxes[b].View() == if b in peers then expected[b] else before[b].(hasSender := false)) &&
      (forall b :: b in expected ==> WellFormed(expected[b]) && expected[b].hasSender) &&
      (forall b :: b in expected <==> b in before && (b in pending || b == addr || !before[b].closed)) &&
      (forall b :: b in expected ==>
         expected[b] == if b in pending || b == addr then before[b] else Sent(before[b], message).0)
    }

    /** `State::broadcast`: offers `message` to every registered peer except
        `addr`; a peer whose send fails is removed. */
    method Broadcast(addr: Addr, message: Message)
      requires Valid()
      requires HasRoom(Snapshot(), addr, 1)
      modifies this, peers.Values
      ensures Valid()
      ensures Snapshot() == Broadcasted(old(Snapshot()), addr, message)
      ensures forall a :: a in peers ==> a in old(peers) && peers[a] == old(peers)[a]
      ensures addr in old(peers) ==> addr in peers
      ensures forall a :: a in peers ==> peers[a].closed == old(peers[a].closed)
      ensures forall a :: a in old(peers) && a !in peers ==>
        old(peers[a].closed) && old(peers)[a].View() == old(peers[a].View()).(hasSender := false)
    {
      ghost var boxes := peers;
      ghost var before := Snapshot();
      ghost var expected := before;
      var pending := peers.Keys - {addr};
      while pending != {}
        invariant Fanout(boxes, before, addr, message, pending, expected)
        decreases pending
      {
        var a :| a in pending;
        expected := Offer(a, addr, message, boxes, before, pending, expected);
        pending := pending - {a};
      }
      BroadcastedPointwise(before, addr, message, expected);
      SnapshotIs(expected);
      assert forall a :: a in boxes ==> before[a] == old(boxes[a].View());
    }

    /** The body of the fan-out loop: unless `a` is the sender, send to the
        peer under `a`, and evict it if the send fails. */
    method Offer(a: Addr, addr: Addr, message: Message, ghost boxes: map<Addr, Mailbox>,
                 ghost before: map<Addr, MailboxView>, ghost pending: set<Addr>,
                 ghost expected: map<Addr, MailboxView>)
      returns (ghost expected': map<Addr, MailboxView>)
      requires Fanout(boxes, before, addr, message, pending, expected) && a in pending && a != addr
      requires HasRoom(before, addr, 1)
      modifies this, boxes[a]
      ensures Fanout(boxes, before, addr, message, pending - {a}, expected')
    {
      var mailbox := peers[a];
      assert mailbox.View() == before[a];
      var ok := mailbox.Send(message);
      if ok {
        expected' := expected[a := mailbox.View()];
      } else {
        mailbox.DropSender();
        peers := peers - {a};
        expected' := expected - {a};
      }
    }

    lemma SnapshotIs(r: map<Addr, MailboxView>)
      requires peers.Keys == r.Keys
      requires forall b :: b in peers ==> peers[b].View() == r[b]
      ensures Snapshot() == r
    {
    }

  }
}
