/** The events relayed between peers and their wire text (src/message.rs). */
module Messages {

  /** One relayed event. The two announcement variants hold the text their
      constructors formatted; `Chat` keeps sender and content apart. */
  datatype Message =
    | UserJoined(text: string)
    | UserLeft(text: string)
    | Chat(sender: string, content: string)

  /** `Message::user_joined`: the announcement that `username` joined. */
  function Joined(username: string): (m: Message)
    ensures m.UserJoined?
  {
    UserJoined(username + " joined the chat")
  }

  /** `Message::user_left`: the announcement that `username` left. */
  function Left(username: string): (m: Message)
    ensures m.UserLeft?
  {
    UserLeft(username + " left the chat")
  }

  /** `Message::chat`: a line of text from `sender`. */
  function ChatFrom(sender: string, content: string): (m: Message)
    ensures m.Chat?
  {
    Chat(sender, content)
  }

  /** `Display::fmt`: the text written to a peer for a message. An
      announcement is its text in brackets; a chat line starts with its
      sender's name, and the separator adds two characters. */
  function Render(m: Message): (r: string)
    ensures !m.Chat? ==> |r| >= |m.text| + 2 && r[0] == '[' && r[|r| - 1] == ']' && r[1..|m.text| + 1] == m.text
    ensures m.Chat? ==> |r| == |m.sender| + 2 + |m.content| && r[..|m.sender|] == m.sender
  {
    match m
    case UserJoined(text) => "[" + text + "]"
    case UserLeft(text) => "[" + text + ", :(]"
    case Chat(sender, content) => sender + ": " + content
  }

  /** Rendering every message of a queue, in queue order. */
  function RenderAll(q: seq<Message>): (r: seq<string>)
    ensures |r| == |q|
    ensures forall k :: 0 <= k < |q| ==> r[k] == Render(q[k])
  {
    if q == [] then [] else [Render(q[0])] + RenderAll(q[1..])
  }

  lemma RenderJoined(username: string)
    ensures Render(Joined(username)) == "[" + username + " joined the chat]"
  {
  }

  lemma RenderLeft(username: string)
    ensures Render(Left(username)) == "[" + username + " left the chat, :(]"
  {
  }

  lemma RenderChat(sender: string, content: string)
    ensures ChatFrom(sender, content).sender == sender
    ensures ChatFrom(sender, content).content == content
    ensures Render(ChatFrom(sender, content)) == sender + ": " + content
  {
  }

  /** Both announcements are bracketed, and for the same user they differ. */
  lemma AnnouncementsBracketed(username: string)
    ensures var j, l := Render(Joined(username)), Render(Left(username));
      j[0] == '[' && j[|j| - 1] == ']' && l[0] == '[' && l[|l| - 1] == ']' && j != l
  {
    RenderJoined(username);
    RenderLeft(username);
    var j, l := Render(Joined(username)), Render(Left(username));
    var k := |username| + 2;
    assert j[k] == 'j' && l[k] == 'l';
  }

  /** Stripping the bracket and a fixed tail recovers the name. */
  lemma BracketedInjective(u: string, v: string, tail: string)
    requires "[" + u + tail == "[" + v + tail
    ensures u == v
  {
    var s := "[" + u + tail;
    assert |u| == |v|;
    assert u == s[1..|u| + 1];
    assert v == ("[" + v + tail)[1..|v| + 1];
  }

  /** The joined announcement determines the user name. */
  lemma JoinedInjective(u: string, v: string)
    requires Render(Joined(u)) == Render(Joined(v))
    ensures u == v
  {
    RenderJoined(u);
    RenderJoined(v);
    BracketedInjective(u, v, " joined the chat]");
  }

  /** The left announcement determines the user name. */
  lemma LeftInjective(u: string, v: string)
    requires Render(Left(u)) == Render(Left(v))
    ensures u == v
  {
    RenderLeft(u);
    RenderLeft(v);
    BracketedInjective(u, v, " left the chat, :(]");
  }

  /** The rendered text does not tell the variants apart: a sender whose name
      starts with '[' can send a line that reads exactly as the join of
      another user. This is an observation about the format, not something
      the code relies on. */
  lemma ChatMimicsJoined(name: string, rest: string)
    ensures Render(ChatFrom("[" + name, rest + " joined the chat]")) == Render(Joined(name + ": " + rest))
  {
    RenderChat("[" + name, rest + " joined the chat]");
    RenderJoined(name + ": " + rest);
    assert "[" + name + ": " + (rest + " joined the chat]") == "[" + (name + ": " + rest) + " joined the chat]";
  }
}
