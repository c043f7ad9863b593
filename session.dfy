/** The per-connection session driver, `handle_client` (src/main.rs): prompt,
    read a user name, register, announce the join, relay each line, announce
    the leave. The connection's input is a sequence of read results; running
    past its end is the end of the stream. */
module Sessions {
  import opened Messages
  import opened Registry

  /** The line written to every new connection before anything is read. */
  const Prompt: string := "Enter your username:"

  datatype SessionError = PromptWriteFailed | UsernameReadFailed

  /** `anyhow::Result<()>` of `handle_client`. */
  datatype SessionResult = Ok | Err(error: SessionError)

  /** What a session does, in order: write the prompt, take one read result,
      register with the registry, broadcast a message excluding an address. */
  datatype Event =
    | WritePrompt(text: string)
    | Received(read: ReadResult)
    | Register(addr: Addr, username: string)
    | Broadcast(exclude: Addr, message: Message)

  /** The `k`-th read of a stream: past the end, the stream has ended. */
  function NextRead(stream: seq<ReadResult>, k: nat): ReadResult
  {
    if k < |stream| then stream[k] else End
  }

  /** The events of the `while let` read loop from the `i`-th read on. */
  function ReadLoop(addr: Addr, username: string, stream: seq<ReadResult>, i: nat): (r: seq<Event>)
    ensures |r| >= 1 && r[|r| - 1].Received? && !r[|r| - 1].read.Line?
    decreases |stream| - i
  {
    if i < |stream| && stream[i].Line? then
      [Received(stream[i]), Broadcast(addr, ChatFrom(username, stream[i].text))]
        + ReadLoop(addr, username, stream, i + 1)
    else
      [Received(NextRead(stream, i))]
  }

  /** The whole session: its result and the events it causes, given whether
      the prompt could be written and what the connection delivers. The
      prompt is written before anything is read, and the first read is the
      user name. */
  function Session(addr: Addr, promptOk: bool, input: seq<ReadResult>): (r: (SessionResult, seq<Event>))
    ensures |r.1| >= 1 && r.1[0] == WritePrompt(Prompt)
    ensures |r.1| >= 2 ==> r.1[1] == Received(NextRead(input, 0))
    ensures r.0.Err? ==> |r.1| <= 2
  {
    if !promptOk then
      (Err(PromptWriteFailed), [WritePrompt(Prompt)])
    else if |input| == 0 || input[0].End? then
      (Ok, [WritePrompt(Prompt), Received(End)])
    else if input[0].ReadErr? then
      (Err(UsernameReadFailed), [WritePrompt(Prompt), Received(ReadErr)])
    else
      (Ok, [WritePrompt(Prompt), Received(input[0])] + Participation(addr, input[0].text, input[1..]))
  }

  /** What a session does once it has a user name: register, announce the
      join, run the read loop over the rest of the input, announce the leave. */
  function Participation(addr: Addr, username: string, stream: seq<ReadResult>): (r: seq<Event>)
    ensures |r| >= 4
    ensures r[0] == Register(addr, username) && r[|r| - 1] == Broadcast(addr, Left(username))
  {
    [Register(addr, username), Broadcast(addr, Joined(username))]
      + ReadLoop(addr, username, stream, 0)
      + [Broadcast(addr, Left(username))]
  }

  /** The effect of one event on the registry's value. */
  function Apply(reg: map<Addr, MailboxView>, e: Event): map<Addr, MailboxView>
  {
    match e
    case Register(addr, _) => Added(reg, addr)
    case Broadcast(exclude, m) => Broadcasted(reg, exclude, m)
    case _ => reg
  }

  /** The registry's value after the events of `log`, in order. */
  function Replay(reg: map<Addr, MailboxView>, log: seq<Event>): map<Addr, MailboxView>
    decreases |log|
  {
    if log == [] then reg else Apply(Replay(reg, log[..|log| - 1]), log[|log| - 1])
  }

  /** The broadcasts of a log, as (excluded address, message) pairs. */
  function Broadcasts(log: seq<Event>): seq<(Addr, Message)>
  {
    if log == [] then []
    else (if log[0].Broadcast? then [(log[0].exclude, log[0].message)] else []) + Broadcasts(log[1..])
  }

  /** The read results a log consumed, in order. */
  function Reads(log: seq<Event>): seq<ReadResult>
  {
    if log == [] then []
    else (if log[0].Received? then [log[0].read] else []) + Reads(log[1..])
  }

  /** The lines read, from the `i`-th read on, before the first error or end. */
  function LinesBefore(stream: seq<ReadResult>, i: nat): seq<string>
    decreases |stream| - i
  {
    if i < |stream| && stream[i].Line? then [stream[i].text] + LinesBefore(stream, i + 1) else []
  }

  /** Every event of `log` is a read or a broadcast that excludes `addr`. */
  predicate Relays(log: seq<Event>, addr: Addr)
  {
    forall k :: 0 <= k < |log| ==> log[k].Received? || (log[k].Broadcast? && log[k].exclude == addr)
  }

  /** `r` is what reading `stream` from its `i`-th read on yields when
      reading stops right after the first read that is not a line. */
  predicate ReadsThroughFirstNonLine(r: seq<ReadResult>, stream: seq<ReadResult>, i: nat)
  {
    |r| > 0 &&
    (forall k :: 0 <= k < |r| ==> r[k] == NextRead(stream, i + k)) &&
    (forall k :: 0 <= k < |r| - 1 ==> r[k].Line?) &&
    !r[|r| - 1].Line?
  }

  /** One chat broadcast per line, each excluding `addr`. */
  function Chats(addr: Addr, username: string, lines: seq<string>): (r: seq<(Addr, Message)>)
    ensures |r| == |lines|
    ensures forall k :: 0 <= k < |lines| ==> r[k] == (addr, ChatFrom(username, lines[k]))
  {
    if lines == [] then [] else [(addr, ChatFrom(username, lines[0]))] + Chats(addr, username, lines[1..])
  }

  // ---------------------------------------------------------------------
  // Lemmas about logs

  lemma {:induction false} BroadcastsConcat(a: seq<Event>, b: seq<Event>)
    ensures Broadcasts(a + b) == Broadcasts(a) + Broadcasts(b)
    decreases |a|
  {
    if a != [] {
      assert (a + b)[0] == a[0];
      assert (a + b)[1..] == a[1..] + b;
      BroadcastsConcat(a[1..], b);
    } else {
      assert a + b == b;
    }
  }

  lemma {:induction false} ReadsConcat(a: seq<Event>, b: seq<Event>)
    ensures Reads(a + b) == Reads(a) + Reads(b)
    decreases |a|
  {
    if a != [] {
      assert (a + b)[0] == a[0];
      assert (a + b)[1..] == a[1..] + b;
      ReadsConcat(a[1..], b);
    } else {
      assert a + b == b;
    }
  }

  lemma {:induction false} ReplayConcat(reg: map<Addr, MailboxView>, a: seq<Event>, b: seq<Event>)
    ensures Replay(reg, a + b) == Replay(Replay(reg, a), b)
    decreases |b|
  {
    if b == [] {
      assert a + b == a;
    } else {
      var n := |b| - 1;
      assert (a + b)[..|a + b| - 1] == a + b[..n];
      ReplayConcat(reg, a, b[..n]);
    }
  }

  /** The read loop relays, in order, exactly the lines read before the first
      error or end, each once, as chat from `username` excluding `addr`. */
  lemma {:induction false} ReadLoopBroadcasts(addr: Addr, username: string, stream: seq<ReadResult>, i: nat)
    ensures Broadcasts(ReadLoop(addr, username, stream, i)) == Chats(addr, username, LinesBefore(stream, i))
    decreases |stream| - i
  {
    if i < |stream| && stream[i].Line? {
      var head := [Received(stream[i]), Broadcast(addr, ChatFrom(username, stream[i].text))];
      BroadcastsConcat(head, ReadLoop(addr, username, stream, i + 1));
      ReadLoopBroadcasts(addr, username, stream, i + 1);
      assert Broadcasts(head) == [(addr, ChatFrom(username, stream[i].text))];
    } else {
      assert Broadcasts([Received(NextRead(stream, i))]) == [];
    }
  }

  /** The read loop consumes reads `i`, `i + 1`, ... up to and including the
      first that is not a line, and none after it. */
  lemma {:induction false} ReadLoopReads(addr: Addr, username: string, stream: seq<ReadResult>, i: nat)
    ensures ReadsThroughFirstNonLine(Reads(ReadLoop(addr, username, stream, i)), stream, i)
    ensures |Reads(ReadLoop(addr, username, stream, i))| == |LinesBefore(stream, i)| + 1
    decreases |stream| - i
  {
    if i < |stream| && stream[i].Line? {
      var head := [Received(stream[i]), Broadcast(addr, ChatFrom(username, stream[i].text))];
      ReadsConcat(head, ReadLoop(addr, username, stream, i + 1));
      ReadLoopReads(addr, username, stream, i + 1);
      assert Reads(head) == [stream[i]];
      ReadsThroughCons(Reads(ReadLoop(addr, username, stream, i + 1)), stream, i);
    } else {
      assert Reads([Received(NextRead(stream, i))]) == [NextRead(stream, i)];
    }
  }

  lemma ReadsThroughCons(r: seq<ReadResult>, stream: seq<ReadResult>, i: nat)
    requires i < |stream| && stream[i].Line?
    requires ReadsThroughFirstNonLine(r, stream, i + 1)
    ensures ReadsThroughFirstNonLine([stream[i]] + r, stream, i)
  {
    var r2 := [stream[i]] + r;
    forall k | 0 <= k < |r2|
      ensures r2[k] == NextRead(stream, i + k)
    {
      if k > 0 {
        assert r2[k] == r[k - 1];
      }
    }
  }

  /** The read loop only reads and broadcasts, and every broadcast excludes
      the session's own address. */
  lemma {:induction false} ReadLoopShape(addr: Addr, username: string, stream: seq<ReadResult>, i: nat)
    ensures Relays(ReadLoop(addr, username, stream, i), addr)
    decreases |stream| - i
  {
    if i < |stream| && stream[i].Line? {
      ReadLoopShape(addr, username, stream, i + 1);
      var l := ReadLoop(addr, username, stream, i);
      var rest := ReadLoop(addr, username, stream, i + 1);
      assert l == [Received(stream[i]), Broadcast(addr, ChatFrom(username, stream[i].text))] + rest;
      forall k | 0 <= k < |l|
        ensures l[k].Received? || (l[k].Broadcast? && l[k].exclude == addr)
      {
        if k >= 2 {
          assert l[k] == rest[k - 2];
        }
      }
    }
  }

  /** Events that neither register `addr` nor send to it leave its entry as
      it was. */
  lemma {:induction false} ReplayKeepsEntry(reg: map<Addr, MailboxView>, log: seq<Event>, addr: Addr)
    requires addr in reg
    requires forall k :: 0 <= k < |log| ==>
      (log[k].Register? ==> log[k].addr != addr) && (log[k].Broadcast? ==> log[k].exclude == addr)
    ensures addr in Replay(reg, log) && Replay(reg, log)[addr] == reg[addr]
    decreases |log|
  {
    if log != [] {
      var n := |log| - 1;
      ReplayKeepsEntry(reg, log[..n], addr);
      var before := Replay(reg, log[..n]);
      match log[n]
      case Register(a, _) =>
        AddReplacesOnlyAddr(before, a, addr);
      case Broadcast(exclude, m) =>
        BroadcastSkipsSender(before, exclude, m);
      case _ =>
    }
  }

  // ---------------------------------------------------------------------
  // Properties of a session

  /** Without a user name (the prompt could not be written, or the first read
      failed or found the end) nothing is registered or announced, the
      registry is unchanged, and the result says which case it was. */
  lemma NoUsernameNoAnnouncement(addr: Addr, promptOk: bool, input: seq<ReadResult>, reg: map<Addr, MailboxView>)
    requires !promptOk || !NextRead(input, 0).Line?
    ensures var (result, log) := Session(addr, promptOk, input);
      log[0] == WritePrompt(Prompt) &&
      Broadcasts(log) == [] && Replay(reg, log) == reg &&
      (forall k :: 0 <= k < |log| ==> !log[k].Register?) &&
      result == (if !promptOk then Err(PromptWriteFailed)
                 else if NextRead(input, 0).ReadErr? then Err(UsernameReadFailed)
                 else Ok) &&
      Reads(log) == (if promptOk then [NextRead(input, 0)] else [])
  {
    var log := Session(addr, promptOk, input).1;
    if promptOk {
      var r := NextRead(input, 0);
      assert log == [WritePrompt(Prompt), Received(r)];
      QuietStart(reg, log, [r]);
    } else {
      assert log == [WritePrompt(Prompt)];
      QuietStart(reg, log, []);
    }
  }

  /** The log of a session that stops at or before the user-name read. */
  lemma QuietStart(reg: map<Addr, MailboxView>, log: seq<Event>, heard: seq<ReadResult>)
    requires |heard| <= 1
    requires log == [WritePrompt(Prompt)] + (if heard == [] then [] else [Received(heard[0])])
    ensures Broadcasts(log) == [] && Replay(reg, log) == reg && Reads(log) == heard
    ensures forall k :: 0 <= k < |log| ==> !log[k].Register?
  {
    if heard == [] {
      assert log[1..] == [];
      ReplayStep(reg, [], WritePrompt(Prompt));
      assert [] + [WritePrompt(Prompt)] == log;
    } else {
      QuietPair(heard[0]);
      ReplayPair(reg, WritePrompt(Prompt), Received(heard[0]));
    }
  }


  lemma QuietPair(r: ReadResult)
    ensures Broadcasts([WritePrompt(Prompt), Received(r)]) == []
    ensures Reads([WritePrompt(Prompt), Received(r)]) == [r]
  {
    var l := [WritePrompt(Prompt), Received(r)];
    assert l[1..] == [Received(r)];
    assert l[1..][1..] == [];
    assert Reads(l[1..][1..]) == [] && Broadcasts(l[1..][1..]) == [];
    assert Broadcasts(l[1..]) == [] && Reads(l[1..]) == [r];
  }

  /** A session that got a user name: the prompt comes first, then the
      user-name read, then the registration, then the join announcement;
      after that come only reads and broadcasts excluding `addr`, and the
      leave announcement is last. The session always ends with `Ok`. */
  lemma SessionOrder(addr: Addr, input: seq<ReadResult>, username: string)
    requires |input| > 0 && input[0] == Line(username)
    ensures var (result, log) := Session(addr, true, input);
      result == Ok &&
      |log| >= 6 &&
      log[0] == WritePrompt(Prompt) && log[1] == Received(Line(username)) &&
      log[2] == Register(addr, username) && log[3] == Broadcast(addr, Joined(username)) &&
      log[|log| - 1] == Broadcast(addr, Left(username)) &&
      Relays(log[3..], addr)
  {
    var log := Session(addr, true, input).1;
    var loop := ReadLoop(addr, username, input[1..], 0);
    var prefix := [WritePrompt(Prompt), Received(input[0]), Register(addr, username), Broadcast(addr, Joined(username))];
    assert log == prefix + loop + [Broadcast(addr, Left(username))];
    ReadLoopShape(addr, username, input[1..], 0);
    assert |loop| >= 1;
    assert log[3..] == [log[3]] + loop + [log[|log| - 1]];
    forall k | 0 <= k < |log[3..]|
      ensures log[3..][k].Received? || (log[3..][k].Broadcast? && log[3..][k].exclude == addr)
    {
      if 0 < k < |log[3..]| - 1 {
        assert log[3..][k] == loop[k - 1];
      }
    }
  }

  /** The broadcasts of a session that got a user name: the join, one chat
      per line read before the first error or end in input order, the
      leave; all of them exclude the session's own address. */
  lemma SessionBroadcasts(addr: Addr, input: seq<ReadResult>, username: string)
    requires |input| > 0 && input[0] == Line(username)
    ensures var b := Broadcasts(Session(addr, true, input).1);
      var lines := LinesBefore(input[1..], 0);
      b == [(addr, Joined(username))] + Chats(addr, username, lines) + [(addr, Left(username))] &&
      |b| == 2 + |lines| &&
      forall k :: 0 <= k < |b| ==> b[k].0 == addr
  {
    var loop := ReadLoop(addr, username, input[1..], 0);
    var prefix := [WritePrompt(Prompt), Received(input[0]), Register(addr, username), Broadcast(addr, Joined(username))];
    var last := [Broadcast(addr, Left(username))];
    assert Session(addr, true, input).1 == prefix + loop + last;
    BroadcastsConcat(prefix + loop, last);
    BroadcastsConcat(prefix, loop);
    ReadLoopBroadcasts(addr, username, input[1..], 0);
    assert Broadcasts(prefix) == [(addr, Joined(username))] by {
      assert Broadcasts(prefix[3..]) == [(addr, Joined(username))] by {
        assert prefix[3..][1..] == [];
      }
      assert prefix[2..][1..] == prefix[3..];
      assert Broadcasts(prefix[2..]) == [(addr, Joined(username))];
      assert prefix[1..][1..] == prefix[2..];
      assert Broadcasts(prefix[1..]) == [(addr, Joined(username))];
    }
    assert Broadcasts(last) == [(addr, Left(username))];
  }

  /** A session that got a user name reads the input in order, up to and
      including the first read after the user name that is not a line, and
      nothing after it. */
  lemma SessionReads(addr: Addr, input: seq<ReadResult>, username: string)
    requires |input| > 0 && input[0] == Line(username)
    ensures ReadsThroughFirstNonLine(Reads(Session(addr, true, input).1), input, 0)
    ensures |Reads(Session(addr, true, input).1)| == |LinesBefore(input[1..], 0)| + 2
  {
    var loop := ReadLoop(addr, username, input[1..], 0);
    var prefix := [WritePrompt(Prompt), Received(input[0]), Register(addr, username), Broadcast(addr, Joined(username))];
    var last := [Broadcast(addr, Left(username))];
    assert Session(addr, true, input).1 == prefix + loop + last;
    ReadsConcat(prefix + loop, last);
    ReadsConcat(prefix, loop);
    ReadLoopReads(addr, username, input[1..], 0);
    assert Reads(prefix) == [input[0]] by {
      assert Reads(prefix[3..]) == [] by {
        assert prefix[3..][1..] == [];
      }
      assert prefix[2..][1..] == prefix[3..];
      assert Reads(prefix[2..]) == [];
      assert prefix[1..][1..] == prefix[2..];
      assert Reads(prefix[1..]) == [input[0]];
    }
    assert Reads(last) == [];
    var r := Reads(Session(addr, true, input).1);
    var rl := Reads(loop);
    assert r == [input[0]] + rl;
    forall k | 0 <= k < |r|
      ensures r[k] == NextRead(input, k)
    {
      if k > 0 {
        assert r[k] == rl[k - 1] == NextRead(input[1..], k - 1);
      }
    }
  }

  /** A session that got a user name leaves its own registry entry in place,
      fresh and empty: nothing it does sends to it or removes it. */
  lemma SessionKeepsOwnEntry(addr: Addr, input: seq<ReadResult>, username: string, reg: map<Addr, MailboxView>)
    requires |input| > 0 && input[0] == Line(username)
    ensures var after := Replay(reg, Session(addr, true, input).1);
      addr in after && after[addr] == FreshMailbox
  {
    var loop := ReadLoop(addr, username, input[1..], 0);
    ReplayQuietPrefix(reg, input[0], Participation(addr, username, input[1..]));
    ReplayParticipation(reg, addr, username, loop);
    var start := Broadcasted(Added(reg, addr), addr, Joined(username));
    BroadcastSkipsSender(Added(reg, addr), addr, Joined(username));
    ReadLoopShape(addr, username, input[1..], 0);
    ReplayKeepsEntry(start, loop, addr);
    BroadcastSkipsSender(Replay(start, loop), addr, Left(username));
  }

  // ---------------------------------------------------------------------
  // The imperative driver

  /** `handle_client`: writes the prompt (which may fail), reads the user
      name, registers, then relays until the first read error or end of
      stream and announces the leave. Returns the result and the log of what
      it did; the registry is updated in place. */
  method HandleClient(addr: Addr, promptOk: bool, input: seq<ReadResult>, state: State)
    returns (result: SessionResult, log: seq<Event>)
    requires state.Valid()
    requires promptOk && NextRead(input, 0).Line? ==>
      HasRoom(state.Snapshot(), addr, |LinesBefore(input[1..], 0)| + 2)
    modifies state, state.peers.Values
    ensures state.Valid()
    ensures (result, log) == Session(addr, promptOk, input)
    ensures state.Snapshot() == Replay(old(state.Snapshot()), log)
    ensures !(promptOk && NextRead(input, 0).Line?) ==>
      state.peers == old(state.peers) && forall a :: a in state.peers ==> unchanged(state.peers[a])
    ensures promptOk && NextRead(input, 0).Line? ==>
      addr in state.peers && fresh(state.peers[addr]) &&
      (forall a :: a in state.peers && a != addr ==> a in old(state.peers) && state.peers[a] == old(state.peers)[a]) &&
      forall a :: a in old(state.peers) && (a == addr || a !in state.peers) ==>
        old(state.peers)[a].View() == old(state.peers[a].View()).(hasSender := false)
  {
    ghost var reg0 := state.Snapshot();
    if !promptOk {
      NoUsernameNoAnnouncement(addr, promptOk, input, reg0);
      return Err(PromptWriteFailed), [WritePrompt(Prompt)];
    }
    var first := NextRead(input, 0);
    if !first.Line? {
      NoUsernameNoAnnouncement(addr, promptOk, input, reg0);
      log := [WritePrompt(Prompt), Received(first)];
      result := if first.ReadErr? then Err(UsernameReadFailed) else Ok;
      return;
    }
    var events := Participate(addr, first.text, input[1..], state);
    log := [WritePrompt(Prompt), Received(first)] + events;
    result := Ok;
    ReplayQuietPrefix(reg0, first, events);
  }

  /** The part of `handle_client` after a user name was read: register,
      announce the join, relay the lines, announce the leave. Every other
      peer still registered keeps its mailbox; a mailbox that was replaced
      or evicted only lost its sending half. */
  method Participate(addr: Addr, username: string, stream: seq<ReadResult>, state: State)
    returns (events: seq<Event>)
    requires state.Valid()
    requires HasRoom(state.Snapshot(), addr, |LinesBefore(stream, 0)| + 2)
    modifies state, state.peers.Values
    ensures state.Valid()
    ensures events == Participation(addr, username, stream)
    ensures state.Snapshot() == Replay(old(state.Snapshot()), events)
    ensures addr in state.peers && fresh(state.peers[addr])
    ensures forall a :: a in state.peers && a != addr ==> a in old(state.peers) && state.peers[a] == old(state.peers)[a]
    ensures forall a :: a in old(state.peers) && (a == addr || a !in state.peers) ==>
      old(state.peers)[a].View() == old(state.peers[a].View()).(hasSender := false)
  {
    ghost var reg0 := state.Snapshot();
    ghost var peers0 := state.peers;
    var peer := state.Add(addr, username, stream);
    ghost var peers1 := state.peers;
    assert forall a :: a in peers0 && a != addr ==> a in peers1 && peers1[a] == peers0[a];
    assert forall a :: a in peers0 && a != addr ==> peers0[a].View() == old(state.peers[a].View());
    ghost var replaced := if addr in peers0 then peers0[addr].View() else FreshMailbox;
    assert addr in peers0 ==> replaced == old(state.peers[addr].View()).(hasSender := false);
    HasRoomAfterAdd(reg0, addr, |LinesBefore(stream, 0)| + 2);
    if addr in peers0 {
      NotAmong(state.peers, peers0[addr]);
    }
    var relayed := Converse(addr, peer.username, peer.stream, state);
    events := [Register(addr, username), Broadcast(addr, Joined(username))] + relayed
      + [Broadcast(addr, Left(username))];
    ReplayParticipation(reg0, addr, username, relayed);
    forall a | a in peers0 && (a == addr || a !in state.peers)
      ensures peers0[a].View() == old(state.peers[a].View()).(hasSender := false)
    {
      if a == addr {
        assert peers0[a].View() == replaced;
      }
    }
  }

  /** The rest of a participation once registered: announce the join, relay
      the lines, announce the leave. */
  method Converse(addr: Addr, username: string, stream: seq<ReadResult>, state: State)
    returns (relayed: seq<Event>)
    requires state.Valid()
    requires HasRoom(state.Snapshot(), addr, |LinesBefore(stream, 0)| + 2)
    requires addr in state.peers
    modifies state, state.peers.Values
    ensures state.Valid()
    ensures relayed == ReadLoop(addr, username, stream, 0)
    ensures state.Snapshot() == Broadcasted(Replay(Broadcasted(old(state.Snapshot()), addr, Joined(username)),
                                                   relayed), addr, Left(username))
    ensures addr in state.peers && state.peers[addr] == old(state.peers[addr])
    ensures forall a :: a in state.peers ==> a in old(state.peers) && state.peers[a] == old(state.peers)[a]
    ensures forall a :: a in old(state.peers) && a !in state.peers ==>
      old(state.peers)[a].View() == old(state.peers[a].View()).(hasSender := false)
  {
    ghost var boxes := state.peers;
    ghost var views := state.Snapshot();
    assert forall a :: a in boxes ==> views[a] == boxes[a].View();
    assert Retains(state, boxes, views);
    var joined := Joined(username);
    HasRoomAfterBroadcast(state.Snapshot(), addr, joined, |LinesBefore(stream, 0)| + 1);
    Announce(addr, joined, state, boxes, views, boxes);
    relayed := Relay(addr, username, stream, state, boxes, views);
    Announce(addr, Left(username), state, boxes, views, boxes);
  }

  /** How the registry's mailboxes relate to `boxes`, the registry's map at
      some earlier point, and `views`, their values then, when only
      broadcasts happened since: every peer still registered has the same
      mailbox, whose receiver is alive exactly as it was; every peer no longer
      registered had a closed mailbox, which only lost its sending half. */
  ghost predicate Retains(state: State, boxes: map<Addr, Mailbox>, views: map<Addr, MailboxView>)
    reads state, state.peers.Values, boxes.Values
  {
    (forall a :: a in boxes ==>
       a in views && boxes[a].owner == a && WellFormed(views[a]) && views[a].hasSender) &&
    (forall a :: a in state.peers ==>
       a in boxes && state.peers[a] == boxes[a] && state.peers[a].closed == views[a].closed) &&
    (forall a :: a in boxes && a !in state.peers ==>
       views[a].closed && boxes[a].View() == views[a].(hasSender := false))
  }

  /** A mailbox created for an address that is not registered under it is no
      registered peer's mailbox. */
  lemma NotAmong(peers: map<Addr, Mailbox>, box: Mailbox)
    requires forall a :: a in peers ==> peers[a].owner == a
    requires box.owner !in peers || peers[box.owner] != box
    ensures box !in peers.Values
  {
  }

  /** One broadcast from `addr`, keeping `Retains`. */
  method Announce(addr: Addr, message: Message, state: State,
                  ghost boxes: map<Addr, Mailbox>, ghost views: map<Addr, MailboxView>,
                  ghost peers0: map<Addr, Mailbox>)
    requires state.Valid() && HasRoom(state.Snapshot(), addr, 1)
    requires Retains(state, boxes, views)
    requires forall a :: a in state.peers ==> a in peers0 && state.peers[a] == peers0[a]
    modifies state, state.peers.Values
    ensures state.Valid()
    ensures state.Snapshot() == Broadcasted(old(state.Snapshot()), addr, message)
    ensures Retains(state, boxes, views)
    ensures forall a :: a in state.peers ==> a in peers0 && state.peers[a] == peers0[a]
    ensures addr in old(state.peers) ==> addr in state.peers
  {
    forall a | a in boxes && a !in state.peers
      ensures boxes[a] !in state.peers.Values
    {
      NotAmong(state.peers, boxes[a]);
    }
    state.Broadcast(addr, message);
  }

  /** The registry's value after a participation, step by step. */
  lemma ReplayParticipation(reg: map<Addr, MailboxView>, addr: Addr, username: string, relayed: seq<Event>)
    ensures Replay(reg, [Register(addr, username), Broadcast(addr, Joined(username))] + relayed
                        + [Broadcast(addr, Left(username))])
      == Broadcasted(Replay(Broadcasted(Added(reg, addr), addr, Joined(username)), relayed), addr, Left(username))
  {
    var opening := [Register(addr, username), Broadcast(addr, Joined(username))];
    ReplayPair(reg, opening[0], opening[1]);
    ReplayConcat(reg, opening, relayed);
    ReplayStep(reg, opening + relayed, Broadcast(addr, Left(username)));
  }

  /** Writing the prompt and reading do not touch the registry. */
  lemma ReplayQuietPrefix(reg: map<Addr, MailboxView>, r: ReadResult, events: seq<Event>)
    ensures Replay(reg, [WritePrompt(Prompt), Received(r)] + events) == Replay(reg, events)
  {
    ReplayPair(reg, WritePrompt(Prompt), Received(r));
    ReplayConcat(reg, [WritePrompt(Prompt), Received(r)], events);
  }

  /** The `while let` loop of `handle_client`: relays each line read as chat
      from `username`, excluding `addr`, until the first read error or end of
      the stream. The registry only loses entries while it runs. */
  method Relay(addr: Addr, username: string, stream: seq<ReadResult>, state: State,
               ghost boxes: map<Addr, Mailbox>, ghost views: map<Addr, MailboxView>)
    returns (events: seq<Event>)
    requires state.Valid()
    requires HasRoom(state.Snapshot(), addr, |LinesBefore(stream, 0)| + 1)
    requires Retains(state, boxes, views)
    modifies state, state.peers.Values
    ensures state.Valid()
    ensures HasRoom(state.Snapshot(), addr, 1)
    ensures events == ReadLoop(addr, username, stream, 0)
    ensures state.Snapshot() == Replay(old(state.Snapshot()), events)
    ensures forall a :: a in state.peers ==> a in old(state.peers) && state.peers[a] == old(state.peers)[a]
    ensures addr in old(state.peers) ==> addr in state.peers
    ensures Retains(state, boxes, views)
  {
    ghost var reg0, peers0 := state.Snapshot(), state.peers;
    events := [];
    var i := 0;
    while true
      invariant 0 <= i <= |stream|
      invariant state.Valid()
      invariant HasRoom(state.Snapshot(), addr, |LinesBefore(stream, i)| + 1)
      invariant state.Snapshot() == Replay(reg0, events)
      invariant forall j :: 0 <= j < i ==> stream[j].Line?
      invariant events == RelayedLines(addr, username, stream, i)
      invariant forall a :: a in state.peers ==> a in peers0 && state.peers[a] == peers0[a]
      invariant addr in old(state.peers) ==> addr in state.peers
      invariant Retains(state, boxes, views)
      decreases |stream| - i
    {
      var r := NextRead(stream, i);
      if !r.Line? {
        ReplayStep(reg0, events, Received(r));
        ReadLoopSplit(addr, username, stream, i);
        events := events + [Received(r)];
        break;
      }
      assert i < |stream| && stream[i] == r;
      assert forall j :: 0 <= j < i + 1 ==> stream[j].Line?;
      RelayLine(addr, username, stream, i, state, boxes, views, peers0, reg0, events);
      events := events + [Received(r), Broadcast(addr, ChatFrom(username, r.text))];
      i := i + 1;
    }
  }

  /** One round of the read loop that read a line: the line goes out as chat
      from `username` to every peer but `addr`. */
  method RelayLine(addr: Addr, username: string, stream: seq<ReadResult>, i: nat, state: State,
                   ghost boxes: map<Addr, Mailbox>, ghost views: map<Addr, MailboxView>,
                   ghost peers0: map<Addr, Mailbox>, ghost reg0: map<Addr, MailboxView>, ghost events: seq<Event>)
    requires i < |stream| && stream[i].Line?
    requires state.Valid()
    requires HasRoom(state.Snapshot(), addr, |LinesBefore(stream, i)| + 1)
    requires state.Snapshot() == Replay(reg0, events)
    requires Retains(state, boxes, views)
    requires forall a :: a in state.peers ==> a in peers0 && state.peers[a] == peers0[a]
    modifies state, state.peers.Values
    ensures state.Valid()
    ensures HasRoom(state.Snapshot(), addr, |LinesBefore(stream, i + 1)| + 1)
    ensures state.Snapshot()
      == Replay(reg0, events + [Received(stream[i]), Broadcast(addr, ChatFrom(username, stream[i].text))])
    ensures Retains(state, boxes, views)
    ensures forall a :: a in state.peers ==> a in peers0 && state.peers[a] == peers0[a]
    ensures addr in old(state.peers) ==> addr in state.peers
  {
    var message := ChatFrom(username, stream[i].text);
    assert LinesBefore(stream, i) == [stream[i].text] + LinesBefore(stream, i + 1);
    HasRoomAfterBroadcast(state.Snapshot(), addr, message, |LinesBefore(stream, i + 1)| + 1);
    ghost var before := state.Snapshot();
    Announce(addr, message, state, boxes, views, peers0);
    ReplayRelayStep(reg0, events, stream[i], addr, message);
    assert state.Snapshot() == Broadcasted(before, addr, message);
  }

  /** The events of the read loop's first `i` rounds, when the first `i`
      reads were all lines. */
  function RelayedLines(addr: Addr, username: string, stream: seq<ReadResult>, i: nat): seq<Event>
    requires i <= |stream| && forall j :: 0 <= j < i ==> stream[j].Line?
  {
    if i == 0 then
      []
    else
      RelayedLines(addr, username, stream, i - 1)
        + [Received(stream[i - 1]), Broadcast(addr, ChatFrom(username, stream[i - 1].text))]
  }

  lemma {:induction false} ReadLoopSplit(addr: Addr, username: string, stream: seq<ReadResult>, i: nat)
    requires i <= |stream| && forall j :: 0 <= j < i ==> stream[j].Line?
    ensures ReadLoop(addr, username, stream, 0)
      == RelayedLines(addr, username, stream, i) + ReadLoop(addr, username, stream, i)
  {
    if i > 0 {
      ReadLoopSplit(addr, username, stream, i - 1);
      var step := [Received(stream[i - 1]), Broadcast(addr, ChatFrom(username, stream[i - 1].text))];
      var done, rest := RelayedLines(addr, username, stream, i - 1), ReadLoop(addr, username, stream, i);
      assert ReadLoop(addr, username, stream, i - 1) == step + rest;
      assert RelayedLines(addr, username, stream, i) == done + step;
      assert done + (step + rest) == done + step + rest;
    }
  }

  lemma ReplayRelayStep(reg: map<Addr, MailboxView>, log: seq<Event>, r: ReadResult, addr: Addr, m: Message)
    ensures Replay(reg, log + [Received(r), Broadcast(addr, m)]) == Broadcasted(Replay(reg, log), addr, m)
  {
    var whole, first := log + [Received(r), Broadcast(addr, m)], log + [Received(r)];
    assert whole[..|whole| - 1] == first && whole[|whole| - 1] == Broadcast(addr, m);
    assert first[..|first| - 1] == log && first[|first| - 1] == Received(r);
  }

  lemma ReplayPair(reg: map<Addr, MailboxView>, e0: Event, e1: Event)
    ensures Replay(reg, [e0, e1]) == Apply(Apply(reg, e0), e1)
  {
    ReplayStep(reg, [], e0);
    ReplayStep(reg, [e0], e1);
    assert [] + [e0] == [e0] && [e0] + [e1] == [e0, e1];
  }

  lemma ReplayStep(reg: map<Addr, MailboxView>, log: seq<Event>, e: Event)
    ensures Replay(reg, log + [e]) == Apply(Replay(reg, log), e)
  {
    assert (log + [e])[..|log|] == log;
  }
}
