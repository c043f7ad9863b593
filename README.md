# Broadcast chat relay: a Dafny model

The relay accepts TCP clients. It asks each client for a user name, keeps a
registry from socket address to a bounded mailbox (capacity 128), and
broadcasts three kinds of event to every other registered peer: a join
announcement, each chat line the client sends, and a leave announcement. A
per-peer delivery task drains the mailbox and writes each message's rendered
text to the peer. When a broadcast's send to a peer fails because that
peer's delivery task has ended, the broadcast removes the peer from the
registry. The model completes that removal as one step with the send.

The model has three modules:

- `Messages` (messages.dfy): the `Message` enum, its three constructors, and
  its `Display` rendering. This part is pure.
- `Registry` (registry.dfy): the registry of `src/state.rs`.
  - `Mailbox` is a class. Its fields are the queue, whether the delivery task
    has dropped its receiver (`closed`), and whether the registry still holds
    the sending half (`hasSender`).
  - `State` is a class over `map<Addr, Mailbox>`. `State.Broadcast`, `State.Add`
    and `Mailbox.Drain`, the delivery task's loop, update it in place.
  - Each method is proved against a function on values: `Sent`, `Broadcasted`,
    `Added` and `Drained` over `MailboxView` snapshots. The lemmas state the
    properties of those functions.
- `Sessions` (session.dfy): `handle_client` from `src/main.rs`.
  - The input half of a connection is a sequence of reads, each `Line`,
    `ReadErr` or `End`. Running off the end of the sequence reads as `End`.
  - Whether writing the prompt succeeds is a parameter.
  - `HandleClient` changes the registry in place and returns the session's
    result and a log of events: prompt written, read, registered, broadcast.
  - Its contract ties the log to the pure `Session` function and the new
    registry to replaying the log on the old one. The lemmas about `Session`
    then state:
    - the order of events;
    - the exact broadcasts: join, one chat per line, leave;
    - which reads happen;
    - that nothing a session does after registering touches its own entry.

Three behaviours of the code are easy to miss, and the model follows them:

- Announcements render in brackets: `[u joined the chat]` and
  `[u left the chat, :(]`.
- A session that ends normally does not remove itself from the registry. Its
  entry stays until a later broadcast finds the delivery task gone, or until a
  new connection from the same address replaces it.
- Replacing an entry only drops the old sending half. The old delivery task
  then ends once its queue is empty.

## Model

| member | source | states |
|---|---|---|
| Messages.Joined | src/message.rs:11-13 | the join constructor builds a `UserJoined` message |
| Messages.Left | src/message.rs:14-16 | the leave constructor builds a `UserLeft` message |
| Messages.ChatFrom | src/message.rs:17-22 | the chat constructor builds a `Chat` message |
| Messages.Render | src/message.rs:25-32 | an announcement starts with `[` followed by its text and ends with `]`; a chat line starts with the sender's name and the separator adds exactly two characters |
| Messages.RenderAll | src/state.rs:43-44 | rendering a queue gives one text per message, in queue order, each the message's `Display` text |
| Messages.RenderJoined | src/message.rs:11-28 | a join for `u` is written as `[u joined the chat]` |
| Messages.RenderLeft | src/message.rs:14-29 | a leave for `u` is written as `[u left the chat, :(]` |
| Messages.RenderChat | src/message.rs:17-30 | a chat keeps sender and content apart and is written as `sender: content` |
| Messages.AnnouncementsBracketed | src/message.rs:28-29 | both announcements start with `[` and end with `]`, and for one user the join and leave texts differ |
| Messages.JoinedInjective | src/message.rs:12-28 | two join texts are equal only for the same user name |
| Messages.LeftInjective | src/message.rs:15-29 | two leave texts are equal only for the same user name |
| Messages.ChatMimicsJoined | src/message.rs:28-30 | for every name and text, a chat from a sender whose name starts with `[` renders exactly as the join of another user, so the wire text does not identify the variant (an observation about the format, not a promise of the code) |
| Registry.Sent | src/state.rs:26 | a send on a well-formed mailbox that is closed or has a free slot leaves it well formed |
| Registry.Drained | src/state.rs:42-48 | the delivery task leaves its queue empty and the mailbox well formed, writes at most the queued messages, never reopens a closed mailbox and does not touch the sending half |
| Registry.Broadcasted | src/state.rs:23-32 | a broadcast never adds a key, and with a free slot in every other open mailbox it keeps every mailbox well formed |
| Registry.Added | src/state.rs:39-40 | registering removes no key and keeps every mailbox well formed |
| Registry.SendAppendsOrFails | src/state.rs:26 | a send succeeds exactly when the receiver is alive, and then appends the message at the end; a failed send changes nothing |
| Registry.BroadcastSkipsSender | src/state.rs:25 | a broadcast neither sends to nor removes the sender's own entry |
| Registry.BroadcastDelivers | src/state.rs:24-26 | every other open peer gets the message exactly once, after what it already had queued |
| Registry.BroadcastEvictsExactlyFailed | src/state.rs:26-28 | after a broadcast a peer is registered exactly when it is the sender or its send succeeded; no key is added |
| Registry.AddReplacesOnlyAddr | src/state.rs:39-40 | `add` puts a fresh empty mailbox under its address, adds only that key, and leaves every other entry unchanged |
| Registry.HasRoomAfterBroadcast | src/state.rs:23-31 | each broadcast uses at most one slot of every other open mailbox |
| Registry.HasRoomAfterAdd | src/state.rs:39-40 | registering does not reduce the room in any other mailbox |
| Registry.BroadcastEachFifo | src/state.rs:24-26 | the broadcasts of one sender reach each open recipient in call order: its queue grows by exactly that sequence |
| Registry.BroadcastEachNeverReadds | src/state.rs:26-28 | an evicted or unregistered peer stays out of the registry through any number of broadcasts |
| Registry.DrainWritesInOrder | src/state.rs:43-47 | the delivery task writes a prefix of its queue in queue order, each message as its rendered text, and stops just before the failed write |
| Registry.FailedWriteLeadsToEviction | src/state.rs:42-48 | after a failed write the mailbox is closed, every later send to it fails, and the next broadcast by another peer evicts it |
| Registry.DrainWithoutFailure | src/state.rs:42-49 | without a failed write the task writes the whole queue, and its mailbox still accepts sends exactly while the registry holds its sender |
| Registry.Mailbox.constructor | src/state.rs:39 | a new channel is empty and both of its halves are alive |
| Registry.Mailbox.Send | src/state.rs:26 | the new mailbox and the result are those of `Sent` on the old mailbox, and the capacity bound is kept |
| Registry.Mailbox.DropSender | src/state.rs:40 | only the sending half is released; the queue and receiver are unchanged |
| Registry.Mailbox.Drain | src/state.rs:42-48 | the loop's output and the final mailbox are those of `Drained` on the old mailbox |
| Registry.State.constructor | src/state.rs:17-20 | the default registry is empty |
| Registry.State.Add | src/state.rs:33-54 | the registry becomes `Added` of the old one, with a new mailbox object under the address and the old one's sender dropped; every other mailbox keeps its object and its value; the returned peer has the user name and the input half |
| Registry.State.Broadcast | src/state.rs:23-32 | the registry becomes `Broadcasted` of the old one; no entry is added, the sender stays registered, and surviving entries keep their mailbox objects and receiver state; an evicted entry's mailbox was closed and loses only its sending half |
| Registry.State.Offer | src/state.rs:25-29 | one fan-out step sends to one other peer and evicts it if the send fails, keeping the loop's relation to `Broadcasted` |
| Sessions.ReadLoop | src/main.rs:49-60 | the read loop's events end with the read that stopped it, which is not a line |
| Sessions.Session | src/main.rs:33-65 | in every session the prompt is written before anything is read, the first read is the user name, and a session that fails makes no more than those two steps |
| Sessions.Participation | src/main.rs:45-63 | once a user name is read, registration comes first and the leave announcement last |
| Sessions.ReadLoopBroadcasts | src/main.rs:49-60 | the read loop broadcasts one chat per line read before the first error or end, in input order, each excluding the reader |
| Sessions.ReadLoopReads | src/main.rs:49-56 | the read loop reads the input in order up to and including the first read that is not a line |
| Sessions.ReadLoopShape | src/main.rs:49-60 | the read loop only reads and broadcasts messages that exclude the reader, and it reads at least once |
| Sessions.ReplayKeepsEntry | src/state.rs:25 | events that neither register an address nor broadcast to it leave its registry entry as it was |
| Sessions.NoUsernameNoAnnouncement | src/main.rs:39-44 | without a user name the prompt still comes first, nothing is registered or broadcast and the registry is unchanged; the result is an error for a failed prompt or a read error and `Ok` at end of stream |
| Sessions.SessionOrder | src/main.rs:38-64 | the event order: prompt, user-name read, registration, join, then only reads and chats excluding the reader, and the leave last; the result is `Ok` |
| Sessions.SessionBroadcasts | src/main.rs:46-63 | a session's broadcasts are exactly the join, one chat per line before the first error or end, and the leave, all excluding its own address |
| Sessions.SessionReads | src/main.rs:40-56 | a session reads the input in order, through the first non-line after the user name, and no further |
| Sessions.SessionKeepsOwnEntry | src/main.rs:45-64 | after a session its own registry entry is present, fresh and empty: nothing it broadcasts reaches it or removes it |
| Sessions.HandleClient | src/main.rs:33-65 | the result and the event log are those of `Session`, and the registry becomes the replay of that log on the old registry; without a user name no entry and no mailbox changes; with one, the address holds a new mailbox, every other registered peer keeps its mailbox object, and the replaced or evicted mailboxes only lose their sending half |
| Sessions.Participate | src/main.rs:45-63 | registration, join, relayed lines and leave, with the registry updated by replaying exactly those events; the address holds a new mailbox, every other registered peer keeps its mailbox object, and the replaced or evicted mailboxes only lose their sending half |
| Sessions.Converse | src/main.rs:46-63 | after registration: the join, the read loop's events and the leave, with the registry their replay; the session's own mailbox stays registered, no entry is added or replaced, and an evicted mailbox only loses its sending half |
| Sessions.Relay | src/main.rs:49-60 | the loop's events are those of the read loop, the registry is their replay, no entry is added or replaced, the reader's own entry stays if it was registered, and against any earlier registry (`Retains`) every evicted mailbox was closed and only lost its sending half |
| Sessions.RelayLine | src/main.rs:57-59 | one round that read a line broadcasts it as chat from the user, extends the replayed log by that read and that broadcast, and uses one slot of the room left for the rest |
| Sessions.Announce | src/state.rs:23-32 | a broadcast during a session is `Broadcasted` of the registry, keeps the `Retains` relation to an earlier registry, keeps the sender registered if it was, and replaces no mailbox |

## Left out

- `main` is not modelled. It binds the listener, accepts connections, spawns
  tasks, sets up tracing and logs errors.
- Line framing (`LinesCodec`) is not modelled. A connection's input is a
  sequence of reads that are already framed.
- Logging (`info!`, `warn!`) has no observable effect on the registry or the
  peers.
- Concurrency is not modelled. Sessions and delivery tasks are not
  interleaved, and one send, with the eviction it may cause, is one atomic
  step.
- The hash map's shard locks are not modelled.
- Delivery tasks run only through `Mailbox.Drain`, which runs a task until its
  queue is empty. The sessions never call it. A write failure is chosen by the
  index `failAt` rather than by a real connection.
- Registry.Mailbox.Send: requires a free slot when the mailbox is open. The
  source's `send(...).await` waits for one instead, and waiting on a full
  mailbox is not modelled.
- Registry.State.Offer: requires one free slot in every other open mailbox,
  because it calls `Send`.
- Registry.State.Broadcast: requires one free slot in every other open
  mailbox (`HasRoom`), because waiting on a full mailbox is not modelled.
- Registry.State.Broadcast: the source removes a failed peer's entry
  (src/state.rs:28) while the iterator item `peer` still holds a read guard
  on the same shard of the map, which may deadlock. The model completes the
  send and the eviction as one step.
- Sessions.HandleClient: when a user name is read, requires room in every
  other open mailbox for the broadcasts the session makes: the join, one chat
  per line before the first error or end, and the leave. Waiting on a full
  mailbox is not modelled.
- Sessions.Participate: requires room for every broadcast it makes, because
  waiting on a full mailbox is not modelled.
- Sessions.Relay: requires room for one chat per line it relays plus the
  leave that follows, because waiting on a full mailbox is not modelled.
- Sessions.Converse: requires room for the join, one chat per line and the
  leave, because waiting on a full mailbox is not modelled.
- Sessions.RelayLine: requires room for the chat it sends and those after
  it, because waiting on a full mailbox is not modelled.
- Sessions.Announce: requires one free slot in every other open mailbox, as
  `Registry.State.Broadcast` does.
- Socket addresses are abstract values (an address and a port). Their
  structure plays no part.
- The `anyhow` error carries a cause. The model keeps only which step failed.
