/** The server's sessions as a step system: per channel a queue of texts with one asynchronous
    write in flight, the map of connected channels, and the game server's two lists of the
    same connections (lib/networking/src/Server.cpp, src/GameServer/GameServer.cpp). */
module Networking {
  import opened Names

  datatype Connection = Connection(id: PlayerID)

  datatype Message = Message(connection: Connection, text: string)

  datatype User = User(nickname: string, userConnection: Connection)

  datatype Callback = Connected(connection: Connection) | Disconnected(connection: Connection)

  // A channel, with the asynchronous operations outstanding on its websocket: the texts being
  // written and whether a read is pending.
  datatype ChannelState = ChannelState(
    disconnected: bool,
    writeBuffer: seq<string>,
    writing: seq<string>,
    reading: bool)

  datatype System = System(
    all: map<Connection, ChannelState>,  // every channel registered so far; pending callbacks keep it alive
    channels: set<Connection>,           // the keys of the map of connected channels
    incoming: seq<Message>,
    clients: seq<Connection>,
    users: seq<User>,
    callbacks: seq<Callback>)            // the calls of the connection handler, as a history

  const INITIAL := System(map[], {}, [], [], [], [])

  // What can happen next. An error flag is a failed asynchronous operation.
  datatype Event =
    | Accepted(connection: Connection, error: bool)
    | Read(connection: Connection, text: string, error: bool)
    | Written(connection: Connection, error: bool)
    | Send(messages: seq<Message>)
    | Receive
    | Disconnect(connection: Connection)

  // ---------- one channel ----------

  function Sent(ch: ChannelState, text: string): ChannelState {
    if text == "" then ch else
      var queued := ch.(writeBuffer := ch.writeBuffer + [text]);
      if 1 < |queued.writeBuffer| then queued else queued.(writing := ch.writing + [queued.writeBuffer[0]])
  }

  // A write that completed well leaves the queue, and the next one starts.
  function WroteFront(ch: ChannelState): ChannelState
    requires ch.writing != []
  {
    var rest := if ch.writeBuffer == [] then [] else ch.writeBuffer[1..];
    ChannelState(ch.disconnected, rest, if rest == [] then ch.writing[1..] else ch.writing[1..] + [rest[0]], ch.reading)
  }

  // ---------- the lists of the game server ----------

  function NewUser(c: Connection): User {
    User(ToString(c.id), c)
  }

  // `std::remove` and `erase` of one connection
  function Without(cs: seq<Connection>, c: Connection): seq<Connection> {
    if cs == [] then [] else (if cs[0] == c then [] else [cs[0]]) + Without(cs[1..], c)
  }

  // `std::remove` and `erase` of the users equal to the one of a connection
  function WithoutUser(us: seq<User>, c: Connection): seq<User> {
    if us == [] then [] else (if us[0].userConnection == c then [] else [us[0]]) + WithoutUser(us[1..], c)
  }

  function Outgoing(clients: seq<Connection>, text: string): (ms: seq<Message>)
    ensures |ms| == |clients|
  {
    seq(|clients|, i requires 0 <= i < |clients| => Message(clients[i], text))
  }

  // ---------- steps ----------

  function Registered(s: System, c: Connection): System {
    s.(all := s.all[c := ChannelState(false, [], [], true)],
       channels := s.channels + {c},
       clients := s.clients + [c],
       users := s.users + [NewUser(c)],
       callbacks := s.callbacks + [Connected(c)])
  }

  function Dropped(s: System, c: Connection): System {
    if c in s.channels && c in s.all then
      s.(all := s.all[c := s.all[c].(disconnected := true)],
         channels := s.channels - {c},
         clients := Without(s.clients, c),
         users := WithoutUser(s.users, c),
         callbacks := s.callbacks + [Disconnected(c)])
    else s
  }

  function SentAll(s: System, ms: seq<Message>): System
    decreases ms
  {
    if ms == [] then s else
      var c := ms[0].connection;
      SentAll(if c in s.channels && c in s.all then s.(all := s.all[c := Sent(s.all[c], ms[0].text)]) else s, ms[1..])
  }

  // The callback of a write: on an error the front stays queued.
  function AfterWrite(s: System, c: Connection, error: bool): System
    requires c in s.all && s.all[c].writing != []
  {
    if error then
      var done := s.(all := s.all[c := s.all[c].(writing := s.all[c].writing[1..])]);
      if s.all[c].disconnected then done else Dropped(done, c)
    else s.(all := s.all[c := WroteFront(s.all[c])])
  }

  // The callback of a read: on success the next read starts.
  function AfterRead(s: System, c: Connection, text: string, error: bool): System
    requires c in s.all
  {
    if !error then s.(incoming := s.incoming + [Message(c, text)])
    else
      var done := s.(all := s.all[c := s.all[c].(reading := false)]);
      if s.all[c].disconnected then done else Dropped(done, c)
  }

  // Connection ids are fresh; an operation completes only if it is outstanding.
  predicate Enabled(s: System, e: Event) {
    match e
    case Accepted(c, _) => c !in s.all
    case Read(c, _, _) => c in s.all && s.all[c].reading
    case Written(c, _) => c in s.all && s.all[c].writing != []
    case _ => true
  }

  // An event that is not enabled does not happen.
  function Step(s: System, e: Event): System {
    if !Enabled(s, e) then s else
      match e
      case Accepted(c, error) => if error then Dropped(s, c) else Registered(s, c)
      case Read(c, text, error) => AfterRead(s, c, text, error)
      case Written(c, error) => AfterWrite(s, c, error)
      case Send(ms) => SentAll(s, ms)
      case Receive => s.(incoming := [])
      case Disconnect(c) => Dropped(s, c)
  }

  // The state after a run.
  function After(run: seq<Event>): System {
    if run == [] then INITIAL else Step(After(run[..|run| - 1]), run[|run| - 1])
  }
}
