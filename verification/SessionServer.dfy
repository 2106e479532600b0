/** The objects of the server, updated in place by its methods and completion callbacks. Each
    method does one step of the system of module Networking. */
module SessionServer {
  import opened Names
  import opened Networking

  // The connection handler: src/GameServer/GameServer.cpp.
  class GameServer {
    var clients: seq<Connection>
    var users: seq<User>
    ghost var callbacks: seq<Callback>

    constructor ()
      ensures clients == [] && users == [] && callbacks == []
    {
      clients, users, callbacks := [], [], [];
    }

    method OnConnect(c: Connection)
      modifies this
      ensures clients == old(clients) + [c]
      ensures users == old(users) + [User(ToString(c.id), c)]
      ensures callbacks == old(callbacks) + [Connected(c)]
    {
      clients := clients + [c];
      users := users + [NewUser(c)];
      callbacks := callbacks + [Connected(c)];
    }

    method OnDisconnect(c: Connection)
      modifies this
      ensures clients == Without(old(clients), c)
      ensures users == WithoutUser(old(users), c)
      ensures callbacks == old(callbacks) + [Disconnected(c)]
    {
      clients := Without(clients, c);
      RemoveDisconnectedUser(c);
      callbacks := callbacks + [Disconnected(c)];
    }

    // Nothing is erased unless a user with the connection is found.
    method RemoveDisconnectedUser(c: Connection)
      modifies this`users
      ensures users == WithoutUser(old(users), c)
    {
      for i := 0 to |users|
        invariant users == old(users)
        invariant forall j :: 0 <= j < i ==> users[j].userConnection != c
      {
        if users[i].userConnection == c {
          users := WithoutUser(users, c);
          return;
        }
      }
      NoSuchUser(users, c);
    }

    method BuildOutgoing(log: string) returns (outgoing: seq<Message>)
      ensures outgoing == Outgoing(clients, log)
      ensures |outgoing| == |clients| && forall i :: 0 <= i < |clients| ==> outgoing[i] == Message(clients[i], log)
    {
      outgoing := [];
      for i := 0 to |clients|
        invariant outgoing == Outgoing(clients, log)[..i]
      {
        outgoing := outgoing + [Message(clients[i], log)];
      }
    }
  }

  lemma {:induction false} NoSuchUser(us: seq<User>, c: Connection)
    requires forall j :: 0 <= j < |us| ==> us[j].userConnection != c
    ensures WithoutUser(us, c) == us
  {
    if us != [] {
      NoSuchUser(us[1..], c);
    }
  }

  // `writing` and `reading` are the asynchronous operations outstanding on the websocket.
  class Channel {
    const connection: Connection
    var disconnected: bool
    var writeBuffer: seq<string>
    var writing: seq<string>
    var reading: bool

    ghost function State(): ChannelState
      reads this
    {
      ChannelState(disconnected, writeBuffer, writing, reading)
    }

    constructor (c: Connection)
      ensures connection == c && State() == ChannelState(false, [], [], false)
    {
      connection := c;
      disconnected, writeBuffer, writing, reading := false, [], [], false;
    }

    method Disconnect()
      modifies this`disconnected
      ensures disconnected
    {
      disconnected := true;
    }

    method Send(outgoing: string)
      modifies this
      ensures State() == Sent(old(State()), outgoing)
    {
      if outgoing == "" {
        return;
      }
      writeBuffer := writeBuffer + [outgoing];
      if 1 < |writeBuffer| {
        return;
      }
      writing := writing + [writeBuffer[0]];
    }

    method ReadMessage()
      modifies this`reading
      ensures reading
    {
      reading := true;
    }

    // The write at the front of `writing` completed.
    method AfterWrite(server: Server, error: bool)
      requires server.Valid() && server.Owns(this) && writing != []
      modifies server.Footprint()
      ensures server.Valid()
      ensures server.State() == Step(old(server.State()), Written(connection, error))
      ensures writing == old(writing)[1..] + if error || writeBuffer == [] then [] else [writeBuffer[0]]
      ensures old(writeBuffer) != [] ==> writeBuffer == if error then old(writeBuffer) else old(writeBuffer)[1..]
      ensures error && old(!disconnected && connection in server.channels) ==>
                disconnected && connection !in server.channels
    {
      if error {
        writing := writing[1..];
        server.OnlyChannelChanged(this);
        if !disconnected {
          server.Disconnect(connection);
        }
      } else {
        ContinueSending();
        server.OnlyChannelChanged(this);
      }
    }

    method ContinueSending()
      requires writing != []
      modifies this`writing, this`writeBuffer
      ensures State() == WroteFront(old(State()))
      ensures old(writeBuffer) != [] ==> writeBuffer == old(writeBuffer)[1..]
      ensures writing == old(writing)[1..] + if writeBuffer == [] then [] else [writeBuffer[0]]
    {
      writing := writing[1..];
      writeBuffer := if writeBuffer == [] then [] else writeBuffer[1..];
      if writeBuffer != [] {
        writing := writing + [writeBuffer[0]];
      }
    }

    // The pending read completed.
    method AfterRead(server: Server, text: string, error: bool)
      requires server.Valid() && server.Owns(this) && reading
      modifies server.Footprint()
      ensures server.Valid()
      ensures server.State() == Step(old(server.State()), Read(connection, text, error))
      ensures reading == !error
      ensures server.incoming == if error then old(server.incoming) else old(server.incoming) + [Message(connection, text)]
      ensures error && old(!disconnected && connection in server.channels) ==>
                disconnected && connection !in server.channels
    {
      reading := false;
      if !error {
        server.incoming := server.incoming + [Message(connection, text)];
        ReadMessage();
        assert State() == old(State());
        assert server.State().all == old(server.State().all);
      } else {
        server.OnlyChannelChanged(this);
        if !disconnected {
          server.Disconnect(connection);
        }
      }
    }
  }

  class Server {
    var channels: map<Connection, Channel>
    var incoming: seq<Message>
    const connectionHandler: GameServer
    ghost var pool: map<Connection, Channel>  // every channel registered so far

    ghost predicate Valid()
      reads this
    {
      && (forall c :: c in pool ==> pool[c].connection == c)
      && (forall c :: c in channels ==> c in pool && channels[c] == pool[c])
    }

    ghost predicate Owns(ch: Channel)
      reads this
    {
      ch.connection in pool && pool[ch.connection] == ch
    }

    ghost function Footprint(): set<object>
      reads this
    {
      {this, connectionHandler} + set c | c in pool :: pool[c]
    }

    ghost function State(): System
      reads this, Footprint()
    {
      System(map c | c in pool :: pool[c].State(), channels.Keys, incoming,
             connectionHandler.clients, connectionHandler.users, connectionHandler.callbacks)
    }

    // Only the channel `ch` has changed.
    twostate lemma OnlyChannelChanged(ch: Channel)
      requires old(Valid()) && Valid() && Owns(ch) && unchanged(this) && unchanged(connectionHandler)
      requires forall c :: c in pool && c != ch.connection ==> unchanged(pool[c])
      ensures State() == old(State()).(all := old(State()).all[ch.connection := ch.State()])
    {
    }

    constructor (handler: GameServer)
      requires handler.clients == [] && handler.users == [] && handler.callbacks == []
      ensures Valid() && connectionHandler == handler && State() == INITIAL
      ensures fresh(Footprint() - {handler})
    {
      channels, incoming, connectionHandler, pool := map[], [], handler, map[];
    }

    // The websocket handshake of a new channel completed.
    method Accept(channel: Channel, error: bool)
      requires Valid() && channel.connection !in pool
      requires channel.State() == ChannelState(false, [], [], false)
      modifies Footprint(), channel
      ensures Valid()
      ensures State() == Step(old(State()), Accepted(channel.connection, error))
      ensures !error ==> channels == old(channels)[channel.connection := channel] && channel.reading
      ensures error ==> channels == old(channels) - {channel.connection}
    {
      if !error {
        RegisterChannel(channel);
        channel.ReadMessage();
        assert State().all == old(State().all)[channel.connection := ChannelState(false, [], [], true)];
      } else {
        Disconnect(channel.connection);
      }
    }

    method RegisterChannel(channel: Channel)
      requires Valid() && channel.connection !in pool
      modifies this, connectionHandler
      ensures channels == old(channels)[channel.connection := channel]
      ensures pool == old(pool)[channel.connection := channel]
      ensures incoming == old(incoming)
      ensures connectionHandler.clients == old(connectionHandler.clients) + [channel.connection]
      ensures connectionHandler.users ==
              old(connectionHandler.users) + [User(ToString(channel.connection.id), channel.connection)]
      ensures connectionHandler.callbacks == old(connectionHandler.callbacks) + [Connected(channel.connection)]
    {
      channels := channels[channel.connection := channel];
      pool := pool[channel.connection := channel];
      connectionHandler.OnConnect(channel.connection);
    }

    method Receive() returns (messages: seq<Message>)
      requires Valid()
      modifies this`incoming
      ensures Valid() && messages == old(incoming) && incoming == []
      ensures State() == Step(old(State()), Networking.Receive)
    {
      messages := incoming;
      incoming := [];
    }

    method Send(messages: seq<Message>)
      requires Valid()
      modifies Footprint()
      ensures Valid()
      ensures State() == Step(old(State()), Networking.Send(messages))
    {
      ghost var end := SentAll(State(), messages);
      for i := 0 to |messages|
        invariant Valid() && pool == old(pool) && Footprint() == old(Footprint())
        invariant SentAll(State(), messages[i..]) == end
      {
        var c := messages[i].connection;
        ghost var before := State();
        assert messages[i..][0] == messages[i] && messages[i..][1..] == messages[i + 1..];
        if c in channels {
          channels[c].Send(messages[i].text);
          assert State().all == before.all[c := Sent(before.all[c], messages[i].text)];
        }
      }
    }

    method Disconnect(c: Connection)
      requires Valid()
      modifies Footprint()
      ensures Valid() && pool == old(pool)
      ensures State() == Dropped(old(State()), c)
      ensures channels == old(channels) - {c}
    {
      if c in channels {
        ghost var before := State();
        connectionHandler.OnDisconnect(c);
        channels[c].Disconnect();
        channels := channels - {c};
        assert State().all == before.all[c := before.all[c].(disconnected := true)];
      }
    }
  }
}
